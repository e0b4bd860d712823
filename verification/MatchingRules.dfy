/**
 capa-x/src/capabilities/ruleset.rs: building the matching rule set from the parsed rules, and the proof that what is
 built meets what the drivers rely on: an acyclic graph, and each scope's rules after whatever they refer to.
 */
module MatchingRules {
  import opened Base
  import opened Features
  import opened Rules
  import opened RuleGraph
  import opened ScopeSemantics
  import opened Optimizer
  import opened Extraction
  import opened ExtractionSemantics
  import opened ExtractedBodies

  // ---- what rewriting and optimizing do to references ----

  lemma {:induction false} ListReferencesOf(children: seq<Node>, n: string)
    ensures n in ListReferences(children) <==> exists c | c in children :: n in References(c)
    decreases children
  {
    if children != [] {
      ListReferencesOf(children[1..], n);
      assert forall c :: c in children <==> c == children[0] || c in children[1..];
      if c :| c in children[1..] && n in References(c) {
        assert c in children;
      }
    }
  }

  lemma {:induction false} OptimizedReferences(node: Node)
    ensures References(OptimizeNode(node)) == References(node)
    decreases node
  {
    match node.stmt
    case And(children) => OptimizedListReferences(children);
    case Or(children) => OptimizedListReferences(children);
    case SomeOf(_, children) => OptimizedListReferences(children);
    case Not(child) => OptimizedReferences(child);
    case Subscope(_, body) => OptimizedReferences(body);
    case Range(_, _, _) =>
    case Leaf(_) =>
  }

  lemma {:induction false} OptimizedListReferences(children: seq<Node>)
    ensures ListReferences(OptimizeList(children)) == ListReferences(children)
    decreases children
  {
    forall c | c in children ensures References(OptimizeNode(c)) == References(c) {
      OptimizedReferences(c);
    }
    forall n ensures n in ListReferences(OptimizeList(children)) <==> n in ListReferences(children) {
      var refers := c => n in References(c);
      ListKeepsCount(children, refers);
      CountBounds(children, refers);
      CountBounds(OptimizeList(children), refers);
      ListReferencesOf(children, n);
      ListReferencesOf(OptimizeList(children), n);
      assert forall c :: refers(c) <==> n in References(c);
    }
  }

  function LiftedNames(lifted: seq<Lifted>): set<string> {
    set l | l in lifted :: l.name
  }

  function LiftedReferences(lifted: seq<Lifted>): set<string> {
    set l, n | l in lifted && n in References(l.body) :: n
  }

  lemma LiftedConcat(a: seq<Lifted>, b: seq<Lifted>)
    ensures LiftedNames(a + b) == LiftedNames(a) + LiftedNames(b)
    ensures LiftedReferences(a + b) == LiftedReferences(a) + LiftedReferences(b)
  {
    assert forall l :: l in a + b <==> l in a || l in b;
  }

  /** The references of a body are shared out between what is left of it and what is lifted out of it. */
  lemma {:induction false} RewrittenReferences(node: Node, rule: string, k: nat)
    ensures References(Rewrite(node, rule, k)) <= References(node) + LiftedNames(Lift(node, rule, k))
    ensures LiftedNames(Lift(node, rule, k)) <= References(Rewrite(node, rule, k))
    ensures LiftedReferences(Lift(node, rule, k)) <= References(node)
    decreases node
  {
    match node.stmt
    case And(children) => RewrittenListReferences(children, rule, k);
    case Or(children) => RewrittenListReferences(children, rule, k);
    case SomeOf(_, children) => RewrittenListReferences(children, rule, k);
    case Not(child) => RewrittenReferences(child, rule, k);
    case Subscope(_, _) => assert Lift(node, rule, k)[0] in Lift(node, rule, k);
    case Range(_, _, _) =>
    case Leaf(_) =>
  }

  lemma {:induction false} RewrittenListReferences(children: seq<Node>, rule: string, k: nat)
    ensures ListReferences(RewriteList(children, rule, k)) <= ListReferences(children)
            + LiftedNames(LiftList(children, rule, k))
    ensures LiftedNames(LiftList(children, rule, k)) <= ListReferences(RewriteList(children, rule, k))
    ensures LiftedReferences(LiftList(children, rule, k)) <= ListReferences(children)
    decreases children
  {
    if children != [] {
      var c, tail, first := children[0], children[1..], Lift(children[0], rule, k);
      RewrittenReferences(c, rule, k);
      RewrittenListReferences(tail, rule, k + |first|);
      ReferencesAreShared(c, tail, Rewrite(c, rule, k), RewriteList(tail, rule, k + |first|), first,
                          LiftList(tail, rule, k + |first|));
      assert [c] + tail == children;
    }
  }

  /** When the references of the head and of the tail are shared out, so are those of the list. */
  lemma ReferencesAreShared(c: Node, tail: seq<Node>, c': Node, tail': seq<Node>, first: seq<Lifted>, rest: seq<Lifted>)
    requires References(c') <= References(c) + LiftedNames(first)
    requires LiftedNames(first) <= References(c') && LiftedReferences(first) <= References(c)
    requires ListReferences(tail') <= ListReferences(tail) + LiftedNames(rest)
    requires LiftedNames(rest) <= ListReferences(tail') && LiftedReferences(rest) <= ListReferences(tail)
    ensures ListReferences([c'] + tail') <= ListReferences([c] + tail) + LiftedNames(first + rest)
    ensures LiftedNames(first + rest) <= ListReferences([c'] + tail')
    ensures LiftedReferences(first + rest) <= ListReferences([c] + tail)
  {
    LiftedConcat(first, rest);
    ReferencesCons(c, tail);
    ReferencesCons(c', tail');
  }

  lemma ReferencesCons(c: Node, rest: seq<Node>)
    ensures ListReferences([c] + rest) == References(c) + ListReferences(rest)
  {
    assert ([c] + rest)[1..] == rest;
  }

  lemma RewrittenRootReferences(rule: Rule)
    ensures var lifted := LiftRoot(rule.body, rule.name);
            && References(Finished(rule).body) <= References(rule.body) + LiftedNames(lifted)
            && LiftedNames(lifted) <= References(Finished(rule).body)
            && LiftedReferences(lifted) <= References(rule.body)
  {
    OptimizedReferences(RewriteRoot(rule.body, rule.name));
    RewrittenReferences(if rule.body.stmt.Subscope? then rule.body.stmt.body else rule.body, rule.name, 0);
  }

  // ---- extraction creates no cycle ----

  /** A rule's name after the names of everything lifted out of it, innermost first. */
  ghost function FamilyOrder(rule: Rule): seq<string>
    decreases SubscopeCount(rule.body), 1
  {
    LiftRootConserves(rule.body, rule.name);
    LiftedOrder(LiftRoot(rule.body, rule.name), rule.name) + [rule.name]
  }

  ghost function LiftedOrder(lifted: seq<Lifted>, parent: string): seq<string>
    decreases LiftedCount(lifted), 0
  {
    if lifted == [] then [] else FamilyOrder(SubscopeRule(lifted[0], parent)) + LiftedOrder(lifted[1..], parent)
  }

  lemma OwnNameIsLast(rule: Rule)
    ensures rule.name in FamilyOrder(rule)
  {
    var order := FamilyOrder(rule);
    assert order[|order| - 1] == rule.name;
  }

  lemma {:induction false} LiftedNameIsOrdered(lifted: seq<Lifted>, parent: string, l: Lifted)
    requires l in lifted
    ensures l.name in LiftedOrder(lifted, parent)
  {
    OwnNameIsLast(SubscopeRule(lifted[0], parent));
    if l != lifted[0] {
      LiftedNameIsOrdered(lifted[1..], parent, l);
    }
  }

  /** All that the references resolve to is listed. */
  ghost predicate RefersInto(references: set<string>, names: seq<string>, namespaces: Namespaces) {
    forall n, d | n in references && d in Register(n, namespaces) :: d in names
  }

  ghost predicate SyntheticAreRules(all: seq<Rule>, namespaces: Namespaces) {
    forall rule | rule in all && rule.IsSubscopeRule() :: rule.name !in namespaces
  }

  /** What one rule of a family depends on is listed before it. */
  lemma RuleFollowsDependencies(all: seq<Rule>, namespaces: Namespaces, rule: Rule, before: seq<string>, d: string)
    requires UniqueNames(all) && SyntheticAreRules(all, namespaces) && Covers(all, rule)
    requires RefersInto(References(rule.body), before, namespaces)
    requires Edge(GraphOf(all, namespaces), rule.name, d)
    ensures d in before + LiftedOrder(LiftRoot(rule.body, rule.name), rule.name)
  {
    var lifted, finished := LiftRoot(rule.body, rule.name), Finished(rule);
    var i :| 0 <= i < |all| && all[i] == finished;
    GraphEdges(all, namespaces, i);
    RewrittenRootReferences(rule);
    var n :| n in References(finished.body) && d in Register(n, namespaces);
    if n !in References(rule.body) {
      var l :| l in lifted && l.name == n;
      LiftedIsSmaller(rule.body, rule.name, l);
      assert Covers(all, SubscopeRule(l, rule.name));
      SubscopeRuleIsMarked(l, rule.name);
      assert d == n;
      LiftedNameIsOrdered(lifted, rule.name, l);
    }
  }

  lemma {:induction false} FamilyFollowsDependencies(all: seq<Rule>, namespaces: Namespaces, rule: Rule,
                                                     before: seq<string>)
    requires UniqueNames(all) && SyntheticAreRules(all, namespaces) && Covers(all, rule)
    requires RefersInto(References(rule.body), before, namespaces)
    requires DependenciesBefore(GraphOf(all, namespaces), before)
    ensures DependenciesBefore(GraphOf(all, namespaces), before + FamilyOrder(rule))
    decreases SubscopeCount(rule.body), 1
  {
    var lifted := LiftRoot(rule.body, rule.name);
    LiftRootConserves(rule.body, rule.name);
    RewrittenRootReferences(rule);
    forall l | l in lifted ensures Covers(all, SubscopeRule(l, rule.name)) {
      LiftedIsSmaller(rule.body, rule.name, l);
    }
    LiftedFollowDependencies(all, namespaces, lifted, rule.name, before);
    var longer := before + LiftedOrder(lifted, rule.name);
    forall d | Edge(GraphOf(all, namespaces), rule.name, d) ensures d in longer {
      RuleFollowsDependencies(all, namespaces, rule, before, d);
    }
    DependenciesBeforeAppend(GraphOf(all, namespaces), longer, rule.name);
    assert before + FamilyOrder(rule) == longer + [rule.name];
  }

  lemma {:induction false} LiftedFollowDependencies(all: seq<Rule>, namespaces: Namespaces, lifted: seq<Lifted>,
                                                    parent: string, before: seq<string>)
    requires UniqueNames(all) && SyntheticAreRules(all, namespaces)
    requires forall l | l in lifted :: Covers(all, SubscopeRule(l, parent))
    requires RefersInto(LiftedReferences(lifted), before, namespaces)
    requires DependenciesBefore(GraphOf(all, namespaces), before)
    ensures DependenciesBefore(GraphOf(all, namespaces), before + LiftedOrder(lifted, parent))
    decreases LiftedCount(lifted), 0
  {
    if lifted == [] {
      assert before + LiftedOrder(lifted, parent) == before;
    } else {
      var first := FamilyOrder(SubscopeRule(lifted[0], parent));
      assert References(lifted[0].body) <= LiftedReferences(lifted);
      FamilyFollowsDependencies(all, namespaces, SubscopeRule(lifted[0], parent), before);
      assert LiftedReferences(lifted[1..]) <= LiftedReferences(lifted);
      LiftedFollowDependencies(all, namespaces, lifted[1..], parent, before + first);
      assert before + LiftedOrder(lifted, parent) == before + first + LiftedOrder(lifted[1..], parent);
    }
  }

  /** The names of the families of some rules, in turn. */
  ghost function FamiliesOrder(rules: seq<Rule>): seq<string> {
    if rules == [] then [] else FamiliesOrder(rules[..|rules| - 1]) + FamilyOrder(rules[|rules| - 1])
  }

  lemma {:induction false} FamiliesList(rules: seq<Rule>, rule: Rule, n: string)
    requires rule in rules && n in FamilyOrder(rule)
    ensures n in FamiliesOrder(rules)
  {
    if rule != rules[|rules| - 1] {
      assert rule in rules[..|rules| - 1];
      FamiliesList(rules[..|rules| - 1], rule, n);
    }
  }

  /** Each rule's references resolve to rules before it. */
  ghost predicate ResolvesBackwards(rules: seq<Rule>, namespaces: Namespaces) {
    forall i, d | 0 <= i < |rules| && d in Dependencies(rules[i].body, namespaces) ::
      exists j | 0 <= j < i :: rules[j].name == d
  }

  lemma {:induction false} FamiliesFollowDependencies(all: seq<Rule>, namespaces: Namespaces, rules: seq<Rule>)
    requires UniqueNames(all) && SyntheticAreRules(all, namespaces)
    requires forall rule | rule in rules :: Covers(all, rule)
    requires ResolvesBackwards(rules, namespaces)
    ensures DependenciesBefore(GraphOf(all, namespaces), FamiliesOrder(rules))
  {
    if rules != [] {
      var init, last := rules[..|rules| - 1], rules[|rules| - 1];
      forall i, d | 0 <= i < |init| && d in Dependencies(init[i].body, namespaces)
        ensures exists j | 0 <= j < i :: init[j].name == d
      {
        assert init[i] == rules[i];
        var j :| 0 <= j < i && rules[j].name == d;
        assert init[j].name == d;
      }
      FamiliesFollowDependencies(all, namespaces, init);
      forall n, d | n in References(last.body) && d in Register(n, namespaces) ensures d in FamiliesOrder(init) {
        assert d in Dependencies(last.body, namespaces);
        var j :| 0 <= j < |rules| - 1 && rules[j].name == d;
        OwnNameIsLast(init[j]);
        FamiliesList(init, init[j], d);
      }
      FamilyFollowsDependencies(all, namespaces, last, FamiliesOrder(init));
    }
  }

  // ---- the expanded graph is complete and acyclic ----

  lemma {:induction false} FamilyNamesExist(all: seq<Rule>, rule: Rule, n: string)
    requires Covers(all, rule) && n in FamilyOrder(rule)
    ensures exists r | r in all :: r.name == n
    decreases SubscopeCount(rule.body), 1
  {
    var lifted := LiftRoot(rule.body, rule.name);
    LiftRootConserves(rule.body, rule.name);
    if n == rule.name {
      assert Finished(rule) in all;
    } else {
      forall l | l in lifted ensures Covers(all, SubscopeRule(l, rule.name)) {
        LiftedIsSmaller(rule.body, rule.name, l);
      }
      LiftedNamesExist(all, lifted, rule.name, n);
    }
  }

  lemma {:induction false} LiftedNamesExist(all: seq<Rule>, lifted: seq<Lifted>, parent: string, n: string)
    requires forall l | l in lifted :: Covers(all, SubscopeRule(l, parent))
    requires n in LiftedOrder(lifted, parent)
    ensures exists r | r in all :: r.name == n
    decreases LiftedCount(lifted), 0
  {
    if n in FamilyOrder(SubscopeRule(lifted[0], parent)) {
      FamilyNamesExist(all, SubscopeRule(lifted[0], parent), n);
    } else {
      LiftedNamesExist(all, lifted[1..], parent, n);
    }
  }

  lemma {:induction false} FamiliesNamesExist(all: seq<Rule>, rules: seq<Rule>, n: string)
    requires forall rule | rule in rules :: Covers(all, rule)
    requires n in FamiliesOrder(rules)
    ensures exists r | r in all :: r.name == n
  {
    var last := rules[|rules| - 1];
    if n in FamilyOrder(last) {
      FamilyNamesExist(all, last, n);
    } else {
      FamiliesNamesExist(all, rules[..|rules| - 1], n);
    }
  }

  lemma {:induction false} LiftedFamilyIsListed(rule: Rule, l: Lifted, n: string)
    requires l in LiftRoot(rule.body, rule.name) && n in FamilyOrder(SubscopeRule(l, rule.name))
    ensures n in FamilyOrder(rule)
  {
    LiftRootConserves(rule.body, rule.name);
    LiftedFamilyIsInOrder(LiftRoot(rule.body, rule.name), rule.name, l, n);
  }

  lemma {:induction false} LiftedFamilyIsInOrder(lifted: seq<Lifted>, parent: string, l: Lifted, n: string)
    requires l in lifted && n in FamilyOrder(SubscopeRule(l, parent))
    ensures n in LiftedOrder(lifted, parent)
  {
    if l != lifted[0] {
      LiftedFamilyIsInOrder(lifted[1..], parent, l, n);
    }
  }

  /** Every expanded rule belongs to the family of a rule on the stack. */
  lemma {:induction false} ExpandedHasFamily(stack: seq<Rule>, s: Rule)
    requires s in Expand(stack)
    ensures exists rule | rule in stack :: s.name in FamilyOrder(rule)
    decreases Pending(stack)
  {
    StackShrinks(stack);
    var last, popped := stack[|stack| - 1], Popped(stack);
    if s == Finished(last) {
      OwnNameIsLast(last);
      assert last in stack;
    } else {
      ExpandedHasFamily(popped, s);
      var rule :| rule in popped && s.name in FamilyOrder(rule);
      if rule in stack[..|stack| - 1] {
        assert rule in stack;
      } else {
        var l := PoppedRule(stack, rule);
        LiftedFamilyIsListed(last, l, s.name);
        assert last in stack;
      }
    }
  }

  /** Extraction creates no cycle and leaves no reference unresolved. */
  lemma ExpandedGraphIsSound(rules: seq<Rule>, namespaces: Namespaces, sorted: seq<Rule>)
    requires FreshNames(rules) && SyntheticAreRules(Expand(rules), namespaces)
    requires forall rule :: rule in sorted <==> rule in rules
    requires ResolvesBackwards(sorted, namespaces)
    ensures HasOrder(GraphOf(Expand(rules), namespaces))
    ensures Acyclic(GraphOf(Expand(rules), namespaces)) && Complete(GraphOf(Expand(rules), namespaces))
  {
    var all := Expand(rules);
    var g, order := GraphOf(all, namespaces), FamiliesOrder(sorted);
    forall rule | rule in rules ensures Covers(all, rule) {
      ExpandCovers(rules, rule);
    }
    FamiliesFollowDependencies(all, namespaces, sorted);
    GraphNodes(all, namespaces);
    forall n | n in g ensures n in order {
      var s :| s in all && s.name == n;
      ExpandedHasFamily(rules, s);
      var rule :| rule in rules && s.name in FamilyOrder(rule);
      FamiliesList(sorted, rule, n);
    }
    assert ListsInOrder(g, order);
    OrderedIsAcyclic(g, order);
    forall a, b | Edge(g, a, b) ensures b in g {
      EdgesDescend(g, order, a, b);
      FamiliesNamesExist(all, sorted, b);
    }
  }

  // ---- namespaces are those of the originals ----

  ghost predicate HasMember(rules: seq<Rule>, n: string, name: string) {
    exists r | r in rules :: r.name == name && n in RulePrefixes(r)
  }

  ghost predicate IsIndexed(rules: seq<Rule>, n: string) {
    exists r | r in rules :: n in RulePrefixes(r)
  }

  lemma RegisterMeans(rules: seq<Rule>, n: string)
    ensures n in NamespaceIndex(rules) <==> IsIndexed(rules, n)
    ensures forall d :: d in Register(n, NamespaceIndex(rules)) <==>
                          if IsIndexed(rules, n) then HasMember(rules, n, d) else d == n
  {
    PrefixOfSome(rules, n);
    MembersOf(rules, n);
    forall d ensures d in Members(rules, n) <==> HasMember(rules, n, d) {
    }
  }

  /** A `match: n`, or a count of one, occurs in the body. */
  ghost predicate Mentions(body: Node, n: string)
    decreases body
  {
    match body.stmt
    case And(children) => exists c | c in children :: Mentions(c, n)
    case Or(children) => exists c | c in children :: Mentions(c, n)
    case SomeOf(_, children) => exists c | c in children :: Mentions(c, n)
    case Not(child) => Mentions(child, n)
    case Subscope(_, inner) => Mentions(inner, n)
    case Range(f, _, _) => f == MatchedRule(n)
    case Leaf(f) => f == MatchedRule(n)
  }

  lemma {:induction false} ReferencesAreMentioned(body: Node, n: string)
    ensures n in References(body) <==> Mentions(body, n)
    decreases body, 1
  {
    match body.stmt
    case And(children) => ListReferencesAreMentioned(children, n);
    case Or(children) => ListReferencesAreMentioned(children, n);
    case SomeOf(_, children) => ListReferencesAreMentioned(children, n);
    case Not(child) => ReferencesAreMentioned(child, n);
    case Subscope(_, inner) => ReferencesAreMentioned(inner, n);
    case Range(_, _, _) =>
    case Leaf(_) =>
  }

  lemma {:induction false} ListReferencesAreMentioned(children: seq<Node>, n: string)
    ensures n in ListReferences(children) <==> exists c | c in children :: Mentions(c, n)
    decreases children, 0
  {
    if children != [] {
      ReferencesAreMentioned(children[0], n);
      ListReferencesAreMentioned(children[1..], n);
      assert forall c :: c in children <==> c == children[0] || c in children[1..];
    }
  }

  /** The rule lies in the namespace; the empty one has no members. */
  ghost predicate IsInNamespace(rule: Rule, n: string) {
    n != "" && rule.namespace.Some? && IsUnder(rule.namespace.value, n)
  }

  /** What `n` stands for: if there are rules in a namespace so named, those, and otherwise the rule of this name. */
  ghost predicate StandsFor(rules: seq<Rule>, n: string, d: string) {
    if exists r | r in rules :: IsInNamespace(r, n) then exists r | r in rules :: IsInNamespace(r, n) && r.name == d
    else d == n
  }

  /** Some `match:` value in the body stands for `d`. */
  ghost predicate CallsFor(rules: seq<Rule>, body: Node, d: string) {
    exists n :: Mentions(body, n) && StandsFor(rules, n, d)
  }

  /** A rule depends on what the `match:` values in its body stand for. */
  lemma DependsIff(rules: seq<Rule>, body: Node, d: string)
    ensures d in Dependencies(body, NamespaceIndex(rules)) <==> CallsFor(rules, body, d)
  {
    forall n
      ensures n in References(body) <==> Mentions(body, n)
      ensures d in Register(n, NamespaceIndex(rules)) <==> StandsFor(rules, n, d)
    {
      ReferencesAreMentioned(body, n);
      RegisterMeans(rules, n);
      forall r | r in rules ensures n in RulePrefixes(r) <==> IsInNamespace(r, n) {
        PrefixMeansIn(r, n);
      }
    }
  }

  lemma PrefixMeansIn(rule: Rule, n: string)
    ensures n in RulePrefixes(rule) <==> IsInNamespace(rule, n)
  {
    if rule.namespace.Some? {
      IndexedPrefixes(rule.namespace.value, n);
      NamespacesAreThoseAbove(rule.namespace.value, n);
    }
  }

  lemma ExpandedMembers(rules: seq<Rule>, n: string)
    ensures forall name :: HasMember(Expand(rules), n, name) <==> HasMember(rules, n, name)
    ensures IsIndexed(Expand(rules), n) <==> IsIndexed(rules, n)
  {
    forall r | r in rules && n in RulePrefixes(r)
      ensures HasMember(Expand(rules), n, r.name) && IsIndexed(Expand(rules), n)
    {
      ExpandCovers(rules, r);
      assert RulePrefixes(Finished(r)) == RulePrefixes(r);
      assert Finished(r) in Expand(rules);
    }
    forall s | s in Expand(rules) && n in RulePrefixes(s) ensures HasMember(rules, n, s.name) && IsIndexed(rules, n) {
      ExpandedRules(rules, s);
      var r :| r in rules && Finished(r) == s;
      assert RulePrefixes(r) == RulePrefixes(s);
    }
  }

  /** A name means the same to the expanded rules as to the originals: synthetic rules have no namespace. */
  lemma ExpandedNamespaces(rules: seq<Rule>, n: string)
    ensures Register(n, NamespaceIndex(Expand(rules))) == Register(n, NamespaceIndex(rules))
    ensures n in NamespaceIndex(Expand(rules)) <==> n in NamespaceIndex(rules)
  {
    RegisterMeans(rules, n);
    RegisterMeans(Expand(rules), n);
    ExpandedMembers(rules, n);
  }

  lemma SyntheticNamesAreRules(rules: seq<Rule>)
    requires FreshNames(rules)
    ensures SyntheticAreRules(Expand(rules), NamespaceIndex(Expand(rules)))
  {
    forall s | s in Expand(rules) && s.IsSubscopeRule() ensures s.name !in NamespaceIndex(Expand(rules)) {
      ExpandedNamespaces(rules, s.name);
      PrefixOfSome(rules, s.name);
      forall rule | rule in rules ensures s.name !in RulePrefixes(rule) {
        if rule.namespace.Some? {
          IndexedPrefixes(rule.namespace.value, s.name);
        }
      }
    }
  }

  // ---- the rules of one scope ----

  /** No rule is named like a namespace prefix that some rule is published under. */
  ghost predicate NoNameIsANamespace(rules: seq<Rule>) {
    forall a, b | a in rules && b in rules && b.namespace.Some? :: a.name !in RuleNamespaces(b.namespace.value)
  }

  /** Whoever publishes a referenced name is a dependency of the rule that refers to it. */
  lemma PublishersAreDependencies(all: seq<Rule>, user: Rule, publisher: Rule, n: string)
    requires UniqueNames(all) && NoNameIsANamespace(all) && Complete(GraphOf(all, NamespaceIndex(all)))
    requires user in all && publisher in all
    requires n in References(user.body) && n in PublishedNames(publisher)
    ensures publisher.name in Dependencies(user.body, NamespaceIndex(all))
  {
    RegisterMeans(all, n);
    if n == publisher.name {
      forall r | r in all && r.namespace.Some? ensures n !in RulePrefixes(r) {
        IndexedPrefixes(r.namespace.value, n);
      }
      assert publisher.name in Register(n, NamespaceIndex(all));
    } else {
      IndexedPrefixes(publisher.namespace.value, n);
      if n == "" {
        EmptyNameIsARule(all, user, publisher);
      } else {
        assert n in RulePrefixes(publisher);
        assert HasMember(all, n, publisher.name);
        assert publisher.name in Register(n, NamespaceIndex(all));
      }
    }
  }

  /** A reference to the empty name could only be met by a rule of that name, which no rule then is published under. */
  lemma EmptyNameIsARule(all: seq<Rule>, user: Rule, publisher: Rule)
    requires UniqueNames(all) && NoNameIsANamespace(all) && Complete(GraphOf(all, NamespaceIndex(all)))
    requires user in all && publisher in all && "" in References(user.body)
    ensures publisher.namespace.Some? ==> "" !in RuleNamespaces(publisher.namespace.value)
  {
    forall r | r in all ensures "" !in RulePrefixes(r) {
      if r.namespace.Some? {
        IndexedPrefixes(r.namespace.value, "");
      }
    }
    RegisterMeans(all, "");
    assert "" in Register("", NamespaceIndex(all));
    var i :| 0 <= i < |all| && all[i] == user;
    GraphEdges(all, NamespaceIndex(all), i);
    assert Edge(GraphOf(all, NamespaceIndex(all)), user.name, "");
    GraphNodes(all, NamespaceIndex(all));
    var r :| r in all && r.name == "";
  }

  /** `rs` are those of `all` with the scope, each once, after the dependencies among them. */
  ghost predicate ScopeRules(all: seq<Rule>, scope: Scope, rs: seq<Rule>) {
    && (forall rule ::
          rule in rs <==> rule in all && (rule.scopes.static_ == Some(scope) || rule.scopes.dynamic == Some(scope)))
    && UniqueNames(rs)
    && forall i, j | 0 <= i < |rs| && 0 <= j < |rs| && rs[j].name in Dependencies(rs[i].body, NamespaceIndex(all)) ::
         j < i
  }

  lemma ScopeRulesAreOrdered(all: seq<Rule>, scope: Scope, rs: seq<Rule>)
    requires UniqueNames(all) && NoNameIsANamespace(all) && Complete(GraphOf(all, NamespaceIndex(all)))
    requires ScopeRules(all, scope, rs)
    ensures ReferencesComeFirst(rs)
  {
    forall i, j, n | 0 <= i < |rs| && 0 <= j < |rs| && n in References(rs[i].body) && n in PublishedNames(rs[j])
      ensures j < i
    {
      assert rs[i] in rs && rs[j] in rs;
      PublishersAreDependencies(all, rs[i], rs[j], n);
    }
  }

  /** The rule of this name, the last one if there were several. */
  function Named(rules: seq<Rule>, name: string): (r: Option<Rule>)
    ensures r.Some? ==> r.value in rules && r.value.name == name
    ensures r.None? ==> forall rule | rule in rules :: rule.name != name
  {
    if rules == [] then None
    else if rules[|rules| - 1].name == name then Some(rules[|rules| - 1])
    else Named(rules[..|rules| - 1], name)
  }

  /** Every expanded rule is reached from the rules that are not synthetic. */
  lemma {:induction false} ExpandedAreReached(stack: seq<Rule>, namespaces: Namespaces, reached: set<string>)
    requires forall rule | rule in stack :: rule.name in reached
    requires forall s, d | s in Expand(stack) && s.name in reached && d in Dependencies(s.body, namespaces) ::
               d in reached
    requires SyntheticAreRules(Expand(stack), namespaces)
    ensures forall s | s in Expand(stack) :: s.name in reached
    decreases Pending(stack)
  {
    if stack != [] {
      StackShrinks(stack);
      var last, popped := stack[|stack| - 1], Popped(stack);
      assert last in stack;
      assert Expand(stack) == [Finished(last)] + Expand(popped);
      assert Finished(last) in Expand(stack);
      forall rule | rule in popped ensures rule.name in reached {
        if rule in stack[..|stack| - 1] {
          assert rule in stack;
        } else {
          var l := PoppedRule(stack, rule);
          ExpandCovers(stack, last);
          LiftedIsDependency(last, Expand(stack), namespaces, l);
        }
      }
      forall s | s in Expand(popped) ensures s in Expand(stack) {
      }
      ExpandedAreReached(popped, namespaces, reached);
    }
  }

  lemma LiftedIsDependency(last: Rule, all: seq<Rule>, namespaces: Namespaces, l: Lifted)
    requires SyntheticAreRules(all, namespaces) && Covers(all, last) && l in LiftRoot(last.body, last.name)
    ensures l.name in Dependencies(Finished(last).body, namespaces)
  {
    SubscopeRuleIsMarked(l, last.name);
    LiftedIsSmaller(last.body, last.name, l);
    assert Covers(all, SubscopeRule(l, last.name));
    RewrittenRootReferences(last);
    assert l.name in LiftedNames(LiftRoot(last.body, last.name));
    assert l.name in Register(l.name, namespaces);
  }

  /** Everything reachable from a rule that is not synthetic. */
  method ReachedNames(all: seq<Rule>, g: Graph) returns (names: set<string>)
    requires forall rule | rule in all :: rule.name in g
    ensures ClosedUnder(g, names)
    ensures forall rule | rule in all && !rule.IsSubscopeRule() :: rule.name in names
  {
    ghost var universe := Mentioned(g);
    names := {};
    for i := 0 to |all|
      invariant ClosedUnder(g, names) && names <= universe
      invariant forall j | 0 <= j < i && !all[j].IsSubscopeRule() :: all[j].name in names
    {
      if !all[i].IsSubscopeRule() {
        assert all[i] in all;
        names := CollectClosure(g, all[i].name, names, {}, universe);
      }
    }
  }

  /**
   `rules_for_scope`: everything reachable from a rule that is not synthetic, in dependency order, and of that the
   rules of the scope.
   */
  method RulesForScope(ghost rules: seq<Rule>, all: seq<Rule>, namespaces: Namespaces, scope: Scope)
    returns (rs: seq<Rule>)
    requires all == Expand(rules) && namespaces == NamespaceIndex(all)
    ensures FreshNames(rules) && Acyclic(GraphOf(all, namespaces)) ==> ScopeRules(all, scope, rs)
  {
    var g := GraphOf(all, namespaces);
    GraphNodes(all, namespaces);
    var names := ReachedNames(all, g);
    var order := TopoSortSubset(names, g);
    rs := FilterScope(all, order, scope);
    if FreshNames(rules) && Acyclic(g) {
      AllAreReached(rules, names);
      OrderedByScope(all, scope, order, rs);
    }
  }

  lemma AllAreReached(rules: seq<Rule>, names: set<string>)
    requires FreshNames(rules)
    requires ClosedUnder(GraphOf(Expand(rules), NamespaceIndex(Expand(rules))), names)
    requires forall s | s in Expand(rules) && !s.IsSubscopeRule() :: s.name in names
    ensures forall s | s in Expand(rules) :: s.name in names
  {
    var all := Expand(rules);
    SyntheticNamesAreRules(rules);
    forall rule | rule in rules ensures rule.name in names {
      ExpandCovers(rules, rule);
      assert Finished(rule) in all;
      assert rule.name in PublishedNames(rule);
    }
    forall s, d | s in all && s.name in names && d in Dependencies(s.body, NamespaceIndex(all)) ensures d in names {
      var i :| 0 <= i < |all| && all[i] == s;
      GraphEdges(all, NamespaceIndex(all), i);
      assert Edge(GraphOf(all, NamespaceIndex(all)), s.name, d);
    }
    ExpandedAreReached(rules, NamespaceIndex(all), names);
  }

  /** The rules of the scope, in the given order of names. */
  function Filtered(all: seq<Rule>, order: seq<string>, scope: Scope): seq<Rule> {
    if order == [] then []
    else
      var init, rule := Filtered(all, order[..|order| - 1], scope), Named(all, order[|order| - 1]);
      if rule.Some? && rule.value.scopes.Contains(scope) then init + [rule.value] else init
  }

  method FilterScope(all: seq<Rule>, order: seq<string>, scope: Scope) returns (rs: seq<Rule>)
    ensures rs == Filtered(all, order, scope)
  {
    rs := [];
    for i := 0 to |order|
      invariant rs == Filtered(all, order[..i], scope)
    {
      assert order[..i + 1][..i] == order[..i];
      var rule := Named(all, order[i]);
      if rule.Some? && rule.value.scopes.Contains(scope) {
        rs := rs + [rule.value];
      }
    }
    assert order[..|order|] == order;
  }

  /** Filtering keeps the order: the rules that are left stand as their names do. */
  lemma {:induction false} FilteredContents(all: seq<Rule>, order: seq<string>, scope: Scope)
    requires UniqueNames(all) && Distinct(order)
    ensures var rs := Filtered(all, order, scope);
            && (forall rule :: rule in rs <==> rule in all && rule.scopes.Contains(scope) && rule.name in order)
            && StandInOrder(rs, order)
  {
    if order != [] {
      var init, last := order[..|order| - 1], order[|order| - 1];
      FilteredContents(all, init, scope);
      assert order == init + [last];
      FilteredMembers(all, init, last, scope);
      FilteredPositions(all, init, last, scope);
    }
  }

  lemma FilteredMembers(all: seq<Rule>, init: seq<string>, last: string, scope: Scope)
    requires UniqueNames(all)
    requires forall r :: r in Filtered(all, init, scope) <==> r in all && r.scopes.Contains(scope) && r.name in init
    ensures var order := init + [last];
            forall r :: r in Filtered(all, order, scope) <==> r in all && r.scopes.Contains(scope) && r.name in order
  {
    var order, rule := init + [last], Named(all, last);
    assert order[..|init|] == init;
    forall r ensures r in Filtered(all, order, scope) <==> r in all && r.scopes.Contains(scope) && r.name in order {
      if r in all && r.name == last {
        assert rule.Some? && rule.value == r;
      }
    }
  }

  /** The rules stand in the order in which their names are listed. */
  ghost predicate StandInOrder(rs: seq<Rule>, order: seq<string>) {
    && (forall i | 0 <= i < |rs| :: rs[i].name in order)
    && forall i, j | 0 <= i < j < |rs| :: PositionOf(order, rs[i].name) < PositionOf(order, rs[j].name)
  }

  lemma StandInLongerOrder(rs: seq<Rule>, init: seq<string>, last: string)
    requires StandInOrder(rs, init) && last !in init
    ensures StandInOrder(rs, init + [last])
    ensures forall i | 0 <= i < |rs| :: PositionOf(init + [last], rs[i].name) < |init|
  {
    forall i | 0 <= i < |rs|
      ensures rs[i].name in init + [last]
      ensures PositionOf(init + [last], rs[i].name) == PositionOf(init, rs[i].name) < |init|
    {
      PositionInPrefix(init, last, rs[i].name);
    }
  }

  lemma FilteredPositions(all: seq<Rule>, init: seq<string>, last: string, scope: Scope)
    requires last !in init && StandInOrder(Filtered(all, init, scope), init)
    ensures StandInOrder(Filtered(all, init + [last], scope), init + [last])
  {
    var order, before, rule := init + [last], Filtered(all, init, scope), Named(all, last);
    assert order[..|init|] == init;
    StandInLongerOrder(before, init, last);
    assert last in order && PositionOf(order, last) == |init|;
    if rule.Some? && rule.value.scopes.Contains(scope) {
      LastStandsLast(before, rule.value, order);
    }
  }

  lemma LastStandsLast(rs: seq<Rule>, last: Rule, order: seq<string>)
    requires StandInOrder(rs, order) && last.name in order
    requires forall i | 0 <= i < |rs| :: PositionOf(order, rs[i].name) < PositionOf(order, last.name)
    ensures StandInOrder(rs + [last], order)
  {
  }

  lemma PositionInPrefix(init: seq<string>, last: string, name: string)
    requires name in init
    ensures name in init + [last] && PositionOf(init + [last], name) == PositionOf(init, name)
  {
    var order := init + [last];
    var i, j := PositionOf(init, name), PositionOf(order, name);
    assert order[i] == name;
  }

  lemma OrderedByScope(all: seq<Rule>, scope: Scope, order: seq<string>, rs: seq<Rule>)
    requires UniqueNames(all) && rs == Filtered(all, order, scope)
    requires DependencyFirst(GraphOf(all, NamespaceIndex(all)), order)
    requires forall rule | rule in all :: rule.name in order
    ensures ScopeRules(all, scope, rs)
  {
    FilteredContents(all, order, scope);
    assert forall i | 0 <= i < |rs| :: rs[i] in rs;
    forall i, j | 0 <= i < |rs| && 0 <= j < |rs| && rs[j].name in Dependencies(rs[i].body, NamespaceIndex(all))
      ensures j < i
    {
      assert rs[i] in rs && rs[j] in rs;
      DependencyIsBefore(all, order, rs[i], rs[j].name);
    }
  }

  lemma DependencyIsBefore(all: seq<Rule>, order: seq<string>, rule: Rule, d: string)
    requires UniqueNames(all) && DependencyFirst(GraphOf(all, NamespaceIndex(all)), order)
    requires rule in all && rule.name in order && d in Dependencies(rule.body, NamespaceIndex(all))
    ensures d in order && PositionOf(order, d) < PositionOf(order, rule.name)
  {
    var k :| 0 <= k < |all| && all[k] == rule;
    GraphEdges(all, NamespaceIndex(all), k);
    EdgesDescend(GraphOf(all, NamespaceIndex(all)), order, rule.name, d);
  }
}
