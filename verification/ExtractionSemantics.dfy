/**
 Subscope extraction preserves meaning: the drivers, run on the extracted rules, match an original rule at a unit
 exactly where its un-extracted body holds.
 */
module ExtractionSemantics {
  import opened Base
  import opened Rules
  import opened RuleIndex
  import opened RuleGraph
  import opened StaticScopes
  import opened UnitContents
  import opened ScopeSemantics
  import opened Optimizer
  import opened Extraction

  // ---- optimizing a body keeps its meaning over the tree ----

  lemma {:induction false} CountMeantIsCount(p: Program, rules: seq<Rule>, m: Verdicts, children: seq<Node>, u: Unit)
    ensures CountMeant(p, rules, m, children, u) == Count(children, c => Means(p, rules, m, c, u))
  {
    if children != [] {
      CountMeantIsCount(p, rules, m, children[1..], u);
      CountCons(children, c => Means(p, rules, m, c, u));
    }
  }

  lemma {:induction false} OptimizedMeans(p: Program, rules: seq<Rule>, m: Verdicts, node: Node, u: Unit)
    ensures Means(p, rules, m, OptimizeNode(node), u) <==> Means(p, rules, m, node, u)
    decreases node
  {
    match node.stmt
    case And(children) => OptimizedListMeans(p, rules, m, children, u);
    case Or(children) => OptimizedListMeans(p, rules, m, children, u);
    case SomeOf(_, children) => OptimizedListMeans(p, rules, m, children, u);
    case Not(child) => OptimizedMeans(p, rules, m, child, u);
    case Subscope(scope, body) =>
      forall v ensures Means(p, rules, m, OptimizeNode(body), v) <==> Means(p, rules, m, body, v) {
        OptimizedMeans(p, rules, m, body, v);
      }
    case Range(_, _, _) =>
    case Leaf(_) =>
  }

  lemma {:induction false} OptimizedListMeans(p: Program, rules: seq<Rule>, m: Verdicts, children: seq<Node>, u: Unit)
    ensures var r := OptimizeList(children);
            && ((forall c | c in r :: Means(p, rules, m, c, u))
                <==> forall c | c in children :: Means(p, rules, m, c, u))
            && ((exists c | c in r :: Means(p, rules, m, c, u))
                <==> exists c | c in children :: Means(p, rules, m, c, u))
            && CountMeant(p, rules, m, r, u) == CountMeant(p, rules, m, children, u)
            && (r == [] <==> children == [])
    decreases children
  {
    var holds := c => Means(p, rules, m, c, u);
    forall c | c in children ensures holds(OptimizeNode(c)) == holds(c) {
      OptimizedMeans(p, rules, m, c, u);
    }
    var r := OptimizeList(children);
    ListKeepsCount(children, holds);
    CountBounds(children, holds);
    CountBounds(r, holds);
    CountMeantIsCount(p, rules, m, children, u);
    CountMeantIsCount(p, rules, m, r, u);
    assert forall c :: holds(c) == Means(p, rules, m, c, u);
  }

  // ---- what expansion leaves behind ----

  /** Everything lifted out of `rule`, at any depth, is finished and present. */
  ghost predicate Covers(all: seq<Rule>, rule: Rule)
    decreases SubscopeCount(rule.body)
  {
    && Finished(rule) in all
    && forall l | l in LiftRoot(rule.body, rule.name) ::
         (LiftedIsSmaller(rule.body, rule.name, l); Covers(all, SubscopeRule(l, rule.name)))
  }

  lemma {:induction false} LiftedCountOf(lifted: seq<Lifted>, l: Lifted)
    requires l in lifted
    ensures SubscopeCount(l.body) < LiftedCount(lifted)
  {
    if lifted[0] != l {
      LiftedCountOf(lifted[1..], l);
    }
  }

  lemma LiftedIsSmaller(body: Node, rule: string, l: Lifted)
    requires l in LiftRoot(body, rule)
    ensures SubscopeCount(l.body) < SubscopeCount(body)
  {
    LiftedCountOf(LiftRoot(body, rule), l);
    LiftRootConserves(body, rule);
  }

  lemma {:induction false} CoversMore(first: Rule, rest: seq<Rule>, rule: Rule)
    requires Covers(rest, rule)
    ensures Covers([first] + rest, rule)
    decreases SubscopeCount(rule.body)
  {
    forall l | l in LiftRoot(rule.body, rule.name) ensures Covers([first] + rest, SubscopeRule(l, rule.name)) {
      LiftedIsSmaller(rule.body, rule.name, l);
      CoversMore(first, rest, SubscopeRule(l, rule.name));
    }
  }

  lemma {:induction false} ExpandCovers(stack: seq<Rule>, rule: Rule)
    requires rule in stack
    ensures Covers(Expand(stack), rule)
    decreases Pending(stack)
  {
    var last, popped := stack[|stack| - 1], Popped(stack);
    StackShrinks(stack);
    if rule != last {
      assert rule in popped;
      ExpandCovers(popped, rule);
      CoversMore(Finished(last), Expand(popped), rule);
    } else {
      var lifted := LiftRoot(rule.body, rule.name);
      forall l | l in lifted ensures Covers(Expand(stack), SubscopeRule(l, rule.name)) {
        var i :| 0 <= i < |lifted| && lifted[i] == l;
        assert popped[|stack| - 1 + i] == SubscopeRule(l, rule.name);
        ExpandCovers(popped, SubscopeRule(l, rule.name));
        CoversMore(Finished(last), Expand(popped), SubscopeRule(l, rule.name));
      }
    }
  }

  lemma SubscopeRuleIsMarked(l: Lifted, parent: string)
    ensures Finished(SubscopeRule(l, parent)).IsSubscopeRule()
  {
  }

  /** Every expanded rule is a finished original, or a synthetic one, which has no namespace. */
  lemma {:induction false} ExpandedRules(stack: seq<Rule>, rule: Rule)
    requires rule in Expand(stack)
    ensures (exists r | r in stack :: Finished(r) == rule) || (rule.namespace.None? && rule.IsSubscopeRule())
    decreases Pending(stack)
  {
    var last, popped := stack[|stack| - 1], Popped(stack);
    StackShrinks(stack);
    if rule != Finished(last) {
      assert rule in Expand(popped);
      ExpandedRules(popped, rule);
      if r :| r in popped && Finished(r) == rule {
        if r !in stack[..|stack| - 1] {
          var lifted := LiftRoot(last.body, last.name);
          assert r in SubscopeRules(lifted, last.name);
          var i :| 0 <= i < |lifted| && SubscopeRule(lifted[i], last.name) == r;
          SubscopeRuleIsMarked(lifted[i], last.name);
        } else {
          assert r in stack;
        }
      }
    } else {
      assert last in stack;
    }
  }

  // ---- preconditions a caller can check ----

  /**
   The synthetic names are fresh: no two expanded rules share a name, and no original rule is published under, or
   refers to, the name of a synthetic one.
   */
  ghost predicate FreshNames(rules: seq<Rule>) {
    && UniqueNames(Expand(rules))
    && forall s, rule | s in Expand(rules) && s.IsSubscopeRule() && rule in rules ::
         s.name !in PublishedNames(rule) && s.name !in References(rule.body)
  }

  /** No subscope's body is itself a subscope. */
  predicate NodeNestsProperly(n: Node) {
    n.stmt.Subscope? ==> !n.stmt.body.stmt.Subscope?
  }

  /** Subscopes occur only below the root of a rule body or of another subscope's body. */
  ghost predicate SubscopesBelowRoots(body: Node) {
    !body.stmt.Subscope? && AllNodes(body, NodeNestsProperly)
  }

  /** Each scope that is matched at all has exactly the rules of that scope, after whatever they refer to. */
  ghost predicate Compiles(p: Program, all: seq<Rule>) {
    && p.Valid()
    && (forall scope, rule ::
          rule in p.RulesAt(scope)
          <==> rule in all && (rule.scopes.static_ == Some(scope) || rule.scopes.dynamic == Some(scope))
               && scope in ALL_SCOPES)
    && forall scope :: ReferencesComeFirst(p.RulesAt(scope))
  }

  lemma CompiledIsDrawn(p: Program, all: seq<Rule>)
    requires Compiles(p, all) && UniqueNames(all)
    ensures DrawnFrom(p, all)
  {
  }

  // ---- the theorem ----

  /** The drivers match a compiled rule at a unit exactly where the unit has its scope and its body holds. */
  lemma CompiledMatches(p: Program, all: seq<Rule>, u: Unit, rule: Rule)
    requires Compiles(p, all) && UniqueNames(all) && rule in all
    requires WellNested(u) && NoMatchFeatures(p, u)
    ensures (rule.name, u) in DriverVerdicts(p)
            <==> rule.scopes.Contains(u.scope) && Means(p, all, DriverVerdicts(p), rule.body, u)
  {
    CompiledIsDrawn(p, all);
    if rule.scopes.Contains(u.scope) {
      MatchedIffMeant(p, all, u, rule);
    }
    if Matched(p, rule.name, u) {
      MatchedIsOfScope(p, all, u, rule);
    }
  }

  lemma MatchedIsOfScope(p: Program, all: seq<Rule>, u: Unit, rule: Rule)
    requires Compiles(p, all) && UniqueNames(all) && rule in all && Matched(p, rule.name, u)
    ensures rule.scopes.Contains(u.scope)
  {
    MatchedIsListed(p, u, rule.name);
    var other :| other in p.RulesAt(u.scope) && other.name == rule.name;
    assert other in all;
    assert other == rule;
  }

  lemma MatchedIsListed(p: Program, u: Unit, name: string)
    requires p.Valid() && Matched(p, name, u)
    ensures exists rule | rule in p.RulesAt(u.scope) :: rule.name == name
  {
    var rules := p.RulesAt(u.scope);
    EvaluableScanSucceeds(rules, |rules|, Before(p, u), u.addr);
    ResultsAreNamed(rules, |rules|, Before(p, u), u.addr);
    var i :| 0 <= i < |rules| && rules[i].name == name;
    assert rules[i] in rules;
  }

  /** A reference of an original rule is answered alike by the original and by the expanded rules. */
  lemma ReferencesAgree(rules: seq<Rule>, m: Verdicts, n: string, v: Unit)
    requires FreshNames(rules) && exists rule | rule in rules :: n in References(rule.body)
    ensures PublishedAmong(m, Expand(rules), n, v) <==> PublishedAmong(m, rules, n, v)
  {
    var all := Expand(rules);
    if PublishedAmong(m, rules, n, v) {
      var rule :| rule in rules && n in PublishedNames(rule) && (rule.name, v) in m;
      ExpandCovers(rules, rule);
      assert Finished(rule) in all;
      assert PublishedNames(Finished(rule)) == PublishedNames(rule);
    }
    if PublishedAmong(m, all, n, v) {
      var s :| s in all && n in PublishedNames(s) && (s.name, v) in m;
      var user :| user in rules && n in References(user.body);
      ExpandedRules(rules, s);
      if !s.IsSubscopeRule() || s.namespace.Some? || n != s.name {
        var rule :| rule in rules && Finished(rule) == s;
        assert PublishedNames(rule) == PublishedNames(s);
      }
    }
  }

  /** The leaf that replaces a subscope is answered by the rule that the subscope became, and by no other. */
  lemma SubscopeLeafAgrees(rules: seq<Rule>, m: Verdicts, s: Rule, v: Unit)
    requires FreshNames(rules) && s in Expand(rules) && s.IsSubscopeRule()
    ensures PublishedAmong(m, Expand(rules), s.name, v) <==> (s.name, v) in m
  {
    var all := Expand(rules);
    assert s.name in PublishedNames(s);
    if PublishedAmong(m, all, s.name, v) {
      var r :| r in all && s.name in PublishedNames(r) && (r.name, v) in m;
      ExpandedRules(rules, r);
      forall rule | rule in rules ensures Finished(rule) != r {
        assert PublishedNames(Finished(rule)) == PublishedNames(rule);
      }
      assert r.name == s.name;
    }
  }

  ghost function OriginalReferences(rules: seq<Rule>): set<string> {
    set r, n | r in rules && n in References(r.body) :: n
  }

  lemma {:induction false} ChildReferences(children: seq<Node>)
    ensures forall c | c in children :: References(c) <= ListReferences(children)
    decreases children
  {
    if children != [] {
      ChildReferences(children[1..]);
    }
  }

  /** What the induction carries down: subscopes nest properly, and the references are the originals'. */
  ghost predicate Carried(rules: seq<Rule>, node: Node) {
    AllNodes(node, NodeNestsProperly) && References(node) <= OriginalReferences(rules)
  }

  lemma CarriedDown(rules: seq<Rule>, node: Node)
    requires Carried(rules, node)
    ensures forall c | c in Children(node.stmt) :: Carried(rules, c)
  {
    ChildReferences(Children(node.stmt));
  }

  ghost predicate AllCovered(rules: seq<Rule>, lifted: seq<Lifted>, parent: string) {
    forall l | l in lifted :: Covers(Expand(rules), SubscopeRule(l, parent))
  }

  /** Child by child, `a` says of `u` by the rules `all` what `b` says of it by `rules`. */
  ghost predicate ListsMeanTheSame(p: Program, all: seq<Rule>, rules: seq<Rule>, m: Verdicts, a: seq<Node>,
                                   b: seq<Node>, u: Unit)
  {
    && |a| == |b|
    && (forall i | 0 <= i < |a| :: Means(p, all, m, a[i], u) <==> Means(p, rules, m, b[i], u))
    && CountMeant(p, all, m, a, u) == CountMeant(p, rules, m, b, u)
  }

  lemma ListsGoOn(p: Program, all: seq<Rule>, rules: seq<Rule>, m: Verdicts, a: Node, b: Node, rest: seq<Node>,
                  others: seq<Node>, u: Unit)
    requires Means(p, all, m, a, u) <==> Means(p, rules, m, b, u)
    requires ListsMeanTheSame(p, all, rules, m, rest, others, u)
    ensures ListsMeanTheSame(p, all, rules, m, [a] + rest, [b] + others, u)
  {
    assert ([a] + rest)[1..] == rest && ([b] + others)[1..] == others;
  }

  lemma ListsDecideTheSame(p: Program, all: seq<Rule>, rules: seq<Rule>, m: Verdicts, a: seq<Node>, b: seq<Node>,
                           u: Unit)
    requires ListsMeanTheSame(p, all, rules, m, a, b, u)
    ensures (forall c | c in a :: Means(p, all, m, c, u)) <==> forall c | c in b :: Means(p, rules, m, c, u)
    ensures (exists c | c in a :: Means(p, all, m, c, u)) <==> exists c | c in b :: Means(p, rules, m, c, u)
  {
    forall i | 0 <= i < |a| ensures a[i] in a && b[i] in b {
    }
  }

  /** A list statement says the same when its children do. */
  lemma StatementsMeanTheSame(p: Program, all: seq<Rule>, rules: seq<Rule>, m: Verdicts, a: seq<Node>, b: seq<Node>,
                              d: Option<string>, u: Unit)
    requires ListsMeanTheSame(p, all, rules, m, a, b, u)
    ensures Means(p, all, m, Node(And(a), d), u) <==> Means(p, rules, m, Node(And(b), d), u)
    ensures Means(p, all, m, Node(Or(a), d), u) <==> Means(p, rules, m, Node(Or(b), d), u)
    ensures forall n: nat ::
              Means(p, all, m, Node(SomeOf(n, a), d), u) <==> Means(p, rules, m, Node(SomeOf(n, b), d), u)
  {
    ListsDecideTheSame(p, all, rules, m, a, b, u);
  }

  /** The heart of the theorem: a rewritten body says of the extracted rules what the body said of the originals. */
  lemma {:induction false} RewrittenMeans(p: Program, rules: seq<Rule>, node: Node, rule: string, k: nat, u: Unit)
    requires FreshNames(rules) && Compiles(p, Expand(rules)) && Carried(rules, node)
    requires AllCovered(rules, Lift(node, rule, k), rule)
    requires WellNested(u) && NoMatchFeatures(p, u)
    ensures Means(p, Expand(rules), DriverVerdicts(p), Rewrite(node, rule, k), u)
            <==> Means(p, rules, DriverVerdicts(p), node, u)
    decreases node, 0
  {
    CarriedDown(rules, node);
    var all, m := Expand(rules), DriverVerdicts(p);
    match node.stmt
    case And(children) =>
      RewrittenListMeans(p, rules, children, rule, k, u);
      StatementsMeanTheSame(p, all, rules, m, RewriteList(children, rule, k), children, node.description, u);
    case Or(children) =>
      RewrittenListMeans(p, rules, children, rule, k, u);
      StatementsMeanTheSame(p, all, rules, m, RewriteList(children, rule, k), children, node.description, u);
    case SomeOf(_, children) =>
      RewrittenListMeans(p, rules, children, rule, k, u);
      StatementsMeanTheSame(p, all, rules, m, RewriteList(children, rule, k), children, node.description, u);
    case Not(child) => RewrittenMeans(p, rules, child, rule, k, u);
    case Range(f, _, _) => if f.MatchedRule? { ReferencesAgreeAt(p, rules, f.name, u); }
    case Leaf(f) => if f.MatchedRule? { ReferencesAgreeAt(p, rules, f.name, u); }
    case Subscope(_, _) => SubscopeMeans(p, rules, node, rule, k, u);
  }

  lemma {:induction false} SubscopeMeans(p: Program, rules: seq<Rule>, node: Node, rule: string, k: nat, u: Unit)
    requires node.stmt.Subscope?
    requires FreshNames(rules) && Compiles(p, Expand(rules)) && Carried(rules, node)
    requires AllCovered(rules, Lift(node, rule, k), rule)
    requires WellNested(u) && NoMatchFeatures(p, u)
    ensures Means(p, Expand(rules), DriverVerdicts(p), Rewrite(node, rule, k), u)
            <==> Means(p, rules, DriverVerdicts(p), node, u)
    decreases node.stmt.body, 2
  {
    CarriedDown(rules, node);
    var l := Lift(node, rule, k)[0];
    forall v | v in Units(u)
      ensures PublishedAmong(DriverVerdicts(p), Expand(rules), l.name, v)
              <==> v.scope == l.scope && Means(p, rules, DriverVerdicts(p), l.body, v)
    {
      UnitsAreWellNested(u, v);
      NoMatchWithin(p, u, v);
      LiftedMeans(p, rules, l, rule, v);
    }
  }

  lemma ReferencesAgreeAt(p: Program, rules: seq<Rule>, n: string, u: Unit)
    requires p.Valid() && FreshNames(rules) && n in OriginalReferences(rules)
    ensures forall v | v in Units(u) ::
              PublishedAmong(DriverVerdicts(p), Expand(rules), n, v) <==> PublishedAmong(DriverVerdicts(p), rules, n, v)
    ensures ReferenceSites(DriverVerdicts(p), Expand(rules), n, u) == ReferenceSites(DriverVerdicts(p), rules, n, u)
  {
    forall v | v in Units(u)
      ensures PublishedAmong(DriverVerdicts(p), Expand(rules), n, v) <==> PublishedAmong(DriverVerdicts(p), rules, n, v)
    {
      ReferencesAgree(rules, DriverVerdicts(p), n, v);
    }
  }

  lemma NoMatchWithin(p: Program, u: Unit, v: Unit)
    requires NoMatchFeatures(p, u) && v in Units(u)
    ensures NoMatchFeatures(p, v)
  {
    forall w, e | w in Units(v) && e in Entries(p, w) ensures !e.1.MatchedRule? {
      UnitsNest(u, v, w);
    }
  }

  /** The rule that a subscope became matches at the units of its scope where the subscope's body holds. */
  lemma {:induction false} LiftedMeans(p: Program, rules: seq<Rule>, l: Lifted, parent: string, v: Unit)
    requires FreshNames(rules) && Compiles(p, Expand(rules)) && Carried(rules, l.body)
    requires Covers(Expand(rules), SubscopeRule(l, parent)) && !l.body.stmt.Subscope?
    requires WellNested(v) && NoMatchFeatures(p, v)
    ensures PublishedAmong(DriverVerdicts(p), Expand(rules), l.name, v)
            <==> v.scope == l.scope && Means(p, rules, DriverVerdicts(p), l.body, v)
    decreases l.body, 1
  {
    RewrittenMeans(p, rules, l.body, l.name, 0, v);
    SubscopeMatches(p, Expand(rules), l, parent, v);
    SubscopeRuleIsMarked(l, parent);
    SubscopeLeafAgrees(rules, DriverVerdicts(p), Finished(SubscopeRule(l, parent)), v);
  }

  lemma SubscopeMatches(p: Program, all: seq<Rule>, l: Lifted, parent: string, v: Unit)
    requires Compiles(p, all) && UniqueNames(all) && Finished(SubscopeRule(l, parent)) in all && !l.body.stmt.Subscope?
    requires WellNested(v) && NoMatchFeatures(p, v)
    ensures (l.name, v) in DriverVerdicts(p)
            <==> v.scope == l.scope && Means(p, all, DriverVerdicts(p), Rewrite(l.body, l.name, 0), v)
  {
    var s := Finished(SubscopeRule(l, parent));
    CompiledMatches(p, all, v, s);
    OptimizedMeans(p, all, DriverVerdicts(p), Rewrite(l.body, l.name, 0), v);
    assert s.scopes.Contains(v.scope) <==> v.scope == l.scope;
  }

  lemma CoveredApart(rules: seq<Rule>, first: seq<Lifted>, rest: seq<Lifted>, parent: string)
    requires AllCovered(rules, first + rest, parent)
    ensures AllCovered(rules, first, parent) && AllCovered(rules, rest, parent)
  {
    assert forall l :: l in first + rest <==> l in first || l in rest;
  }

  lemma {:induction false} RewrittenListMeans(p: Program, rules: seq<Rule>, children: seq<Node>, rule: string, k: nat,
                                              u: Unit)
    requires FreshNames(rules) && Compiles(p, Expand(rules)) && WellNested(u) && NoMatchFeatures(p, u)
    requires forall c | c in children :: Carried(rules, c)
    requires AllCovered(rules, LiftList(children, rule, k), rule)
    ensures ListsMeanTheSame(p, Expand(rules), rules, DriverVerdicts(p), RewriteList(children, rule, k), children, u)
    decreases children
  {
    if children != [] {
      var c, rest, next := children[0], children[1..], k + |Lift(children[0], rule, k)|;
      CoveredApart(rules, Lift(c, rule, k), LiftList(rest, rule, next), rule);
      RewrittenMeans(p, rules, c, rule, k, u);
      RewrittenListMeans(p, rules, rest, rule, next, u);
      RewrittenGoesOn(p, Expand(rules), rules, DriverVerdicts(p), children, rule, k, u);
    }
  }

  lemma RewrittenGoesOn(p: Program, all: seq<Rule>, rules: seq<Rule>, m: Verdicts, children: seq<Node>, rule: string,
                        k: nat, u: Unit)
    requires children != []
    requires Means(p, all, m, Rewrite(children[0], rule, k), u) <==> Means(p, rules, m, children[0], u)
    requires var next := k + |Lift(children[0], rule, k)|;
             ListsMeanTheSame(p, all, rules, m, RewriteList(children[1..], rule, next), children[1..], u)
    ensures ListsMeanTheSame(p, all, rules, m, RewriteList(children, rule, k), children, u)
  {
    var next := k + |Lift(children[0], rule, k)|;
    ListsGoOn(p, all, rules, m, Rewrite(children[0], rule, k), children[0], RewriteList(children[1..], rule, next),
              children[1..], u);
    assert [children[0]] + children[1..] == children;
  }

  /**
   Subscope extraction preserves meaning. At every unit of the analysed tree, an original rule matches exactly where
   the unit has one of the rule's scopes and the rule's own, un-extracted body holds.
   */
  lemma ExtractionPreservesMeaning(p: Program, rules: seq<Rule>, rule: Rule, u: Unit)
    requires rule in rules && FreshNames(rules) && Compiles(p, Expand(rules))
    requires forall r | r in rules :: SubscopesBelowRoots(r.body)
    requires WellNested(u) && NoMatchFeatures(p, u)
    ensures Matched(p, rule.name, u)
            <==> (rule.scopes.static_ == Some(u.scope) || rule.scopes.dynamic == Some(u.scope))
                 && Means(p, rules, DriverVerdicts(p), rule.body, u)
  {
    ExpandCovers(rules, rule);
    assert References(rule.body) <= OriginalReferences(rules);
    CompiledMatches(p, Expand(rules), u, Finished(rule));
    OptimizedMeans(p, Expand(rules), DriverVerdicts(p), Rewrite(rule.body, rule.name, 0), u);
    RewrittenMeans(p, rules, rule.body, rule.name, 0, u);
  }
}
