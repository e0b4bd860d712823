/**
 What extraction leaves of rule bodies: no subscope below a root, and hence bodies that evaluation accepts, exactly when
 no body had a subscope at a root.
 */
module ExtractedBodies {
  import opened Features
  import opened FeatureSets
  import opened Rules
  import opened Engine
  import opened RuleIndex
  import opened Optimizer
  import opened Extraction
  import opened ExtractionSemantics

  /** A rule that a step of the expansion pushes is one that was lifted out of the rule it popped. */
  lemma PoppedRule(stack: seq<Rule>, rule: Rule) returns (l: Lifted)
    requires stack != [] && rule in Popped(stack) && rule !in stack[..|stack| - 1]
    ensures var last := stack[|stack| - 1];
            l in LiftRoot(last.body, last.name) && rule == SubscopeRule(l, last.name)
  {
    var last := stack[|stack| - 1];
    var lifted := LiftRoot(last.body, last.name);
    assert rule in SubscopeRules(lifted, last.name);
    var i :| 0 <= i < |lifted| && SubscopeRule(lifted[i], last.name) == rule;
    l := lifted[i];
  }

  lemma LiftedIsPushed(stack: seq<Rule>, l: Lifted)
    requires stack != []
    requires l in LiftRoot(stack[|stack| - 1].body, stack[|stack| - 1].name)
    ensures SubscopeRule(l, stack[|stack| - 1].name) in Popped(stack)
  {
    var last := stack[|stack| - 1];
    var lifted := LiftRoot(last.body, last.name);
    var i :| 0 <= i < |lifted| && lifted[i] == l;
    assert SubscopeRules(lifted, last.name)[i] == SubscopeRule(l, last.name);
  }

  // ---- properties of leaves ----

  /** A property that only leaves and counts can fail, and no reference fails. */
  ghost predicate IsOfLeaves(p: Node -> bool) {
    && (forall n: Node :: !n.stmt.Leaf? && !n.stmt.Range? ==> p(n))
    && forall name, d :: p(Node(Leaf(MatchedRule(name)), d))
  }

  /** Rewriting keeps such a property, and so do the bodies it lifts out. */
  lemma {:induction false} RewrittenKeeps(node: Node, rule: string, k: nat, p: Node -> bool)
    requires IsOfLeaves(p) && AllNodes(node, p)
    ensures AllNodes(Rewrite(node, rule, k), p)
    ensures forall l | l in Lift(node, rule, k) :: AllNodes(l.body, p)
    decreases node
  {
    match node.stmt
    case And(children) => RewrittenListKeeps(children, rule, k, p);
    case Or(children) => RewrittenListKeeps(children, rule, k, p);
    case SomeOf(_, children) => RewrittenListKeeps(children, rule, k, p);
    case Not(child) => RewrittenKeeps(child, rule, k, p);
    case Subscope(_, _) =>
    case Range(_, _, _) =>
    case Leaf(_) =>
  }

  lemma {:induction false} RewrittenListKeeps(children: seq<Node>, rule: string, k: nat, p: Node -> bool)
    requires IsOfLeaves(p) && forall c | c in children :: AllNodes(c, p)
    ensures forall c | c in RewriteList(children, rule, k) :: AllNodes(c, p)
    ensures forall l | l in LiftList(children, rule, k) :: AllNodes(l.body, p)
    decreases children
  {
    if children != [] {
      RewrittenKeeps(children[0], rule, k, p);
      RewrittenListKeeps(children[1..], rule, k + |Lift(children[0], rule, k)|, p);
    }
  }

  lemma FinishedKeeps(rule: Rule, p: Node -> bool)
    requires IsOfLeaves(p) && AllNodes(rule.body, p)
    ensures AllNodes(Finished(rule).body, p)
    ensures forall l | l in LiftRoot(rule.body, rule.name) :: AllNodes(l.body, p)
  {
    RewrittenKeeps(if rule.body.stmt.Subscope? then rule.body.stmt.body else rule.body, rule.name, 0, p);
    OptimizedKeepsShape(RewriteRoot(rule.body, rule.name), p);
  }

  lemma {:induction false} ExpandedKeep(stack: seq<Rule>, p: Node -> bool)
    requires IsOfLeaves(p) && forall rule | rule in stack :: AllNodes(rule.body, p)
    ensures forall rule | rule in Expand(stack) :: AllNodes(rule.body, p)
    decreases Pending(stack)
  {
    if stack != [] {
      ExpandStep(stack);
      var last, popped := stack[|stack| - 1], Popped(stack);
      assert last in stack;
      FinishedKeeps(last, p);
      forall rule | rule in popped ensures AllNodes(rule.body, p) {
        if rule in stack[..|stack| - 1] {
          assert rule in stack;
        } else {
          var l := PoppedRule(stack, rule);
        }
      }
      ExpandedKeep(popped, p);
    }
  }

  // ---- no subscope is left below a root ----

  predicate NodeIsNoSubscope(n: Node) {
    !n.stmt.Subscope?
  }

  ghost predicate NoSubscopeBelowRoot(body: Node) {
    AllNodes(if body.stmt.Subscope? then body.stmt.body else body, NodeIsNoSubscope)
  }

  lemma {:induction false} RewrittenHasNoSubscope(node: Node, rule: string, k: nat)
    ensures AllNodes(Rewrite(node, rule, k), NodeIsNoSubscope)
    decreases node
  {
    match node.stmt
    case And(children) => RewrittenListHasNoSubscope(children, rule, k);
    case Or(children) => RewrittenListHasNoSubscope(children, rule, k);
    case SomeOf(_, children) => RewrittenListHasNoSubscope(children, rule, k);
    case Not(child) => RewrittenHasNoSubscope(child, rule, k);
    case Subscope(_, _) =>
    case Range(_, _, _) =>
    case Leaf(_) =>
  }

  lemma {:induction false} RewrittenListHasNoSubscope(children: seq<Node>, rule: string, k: nat)
    ensures forall c | c in RewriteList(children, rule, k) :: AllNodes(c, NodeIsNoSubscope)
    decreases children
  {
    if children != [] {
      RewrittenHasNoSubscope(children[0], rule, k);
      RewrittenListHasNoSubscope(children[1..], rule, k + |Lift(children[0], rule, k)|);
    }
  }

  lemma FinishedHasNoSubscope(rule: Rule)
    ensures NoSubscopeBelowRoot(Finished(rule).body)
    ensures Finished(rule).body.stmt.Subscope? <==> rule.body.stmt.Subscope?
  {
    var inner := if rule.body.stmt.Subscope? then rule.body.stmt.body else rule.body;
    RewrittenHasNoSubscope(inner, rule.name, 0);
    OptimizedKeepsShape(Rewrite(inner, rule.name, 0), NodeIsNoSubscope);
  }

  /** Whatever the rules, extraction leaves no subscope strictly below the root of any body. */
  lemma {:induction false} ExpandedLeaveNoSubscope(stack: seq<Rule>)
    ensures forall rule | rule in Expand(stack) :: NoSubscopeBelowRoot(rule.body)
    decreases Pending(stack)
  {
    if stack != [] {
      ExpandStep(stack);
      FinishedHasNoSubscope(stack[|stack| - 1]);
      ExpandedLeaveNoSubscope(Popped(stack));
    }
  }

  // ---- which expanded bodies can be evaluated ----

  predicate NodeIsComFree(n: Node) {
    !(n.stmt.Leaf? && n.stmt.feature.Com?)
  }

  /** What the grammar yields once COM leaves are expanded, with subscopes only below roots. */
  ghost predicate ReadyBody(body: Node) {
    SubscopesBelowRoots(body) && AllNodes(body, NodeIsComFree)
  }

  lemma {:induction false} RewrittenIsEvaluable(node: Node, rule: string, k: nat)
    ensures AllNodes(node, NodeNestsProperly) && AllNodes(node, NodeIsComFree)
            <==> Evaluable(Rewrite(node, rule, k)) && forall l | l in Lift(node, rule, k) :: ReadyBody(l.body)
    decreases node
  {
    match node.stmt
    case And(children) => RewrittenListIsEvaluable(children, rule, k);
    case Or(children) => RewrittenListIsEvaluable(children, rule, k);
    case SomeOf(_, children) => RewrittenListIsEvaluable(children, rule, k);
    case Not(child) => RewrittenIsEvaluable(child, rule, k);
    case Subscope(_, _) => assert Lift(node, rule, k)[0] in Lift(node, rule, k);
    case Range(_, _, _) =>
    case Leaf(_) =>
  }

  lemma {:induction false} RewrittenListIsEvaluable(children: seq<Node>, rule: string, k: nat)
    ensures (forall c | c in children :: AllNodes(c, NodeNestsProperly) && AllNodes(c, NodeIsComFree))
            <==> (forall c | c in RewriteList(children, rule, k) :: Evaluable(c))
                 && forall l | l in LiftList(children, rule, k) :: ReadyBody(l.body)
    decreases children
  {
    if children != [] {
      var first := Lift(children[0], rule, k);
      RewrittenIsEvaluable(children[0], rule, k);
      RewrittenListIsEvaluable(children[1..], rule, k + |first|);
      assert forall c :: c in children <==> c == children[0] || c in children[1..];
      var rest := RewriteList(children[1..], rule, k + |first|);
      assert forall c :: c in RewriteList(children, rule, k) <==> c == Rewrite(children[0], rule, k) || c in rest;
      var more := LiftList(children[1..], rule, k + |first|);
      assert forall l :: l in LiftList(children, rule, k) <==> l in first || l in more;
    }
  }

  lemma FinishedIsEvaluable(rule: Rule)
    ensures ReadyBody(rule.body)
            <==> Evaluable(Finished(rule).body) && forall l | l in LiftRoot(rule.body, rule.name) :: ReadyBody(l.body)
  {
    if !rule.body.stmt.Subscope? {
      RewrittenIsEvaluable(rule.body, rule.name, 0);
    }
    OptimizedIsEvaluable(RewriteRoot(rule.body, rule.name));
  }

  /**
   Every expanded body can be evaluated exactly when every body was free of COM leaves and had its subscopes below
   roots: neither a rule's body nor a subscope's may itself be a subscope.
   */
  lemma {:induction false} ExpandedAreEvaluable(stack: seq<Rule>)
    ensures (forall rule | rule in Expand(stack) :: Evaluable(rule.body))
            <==> forall rule | rule in stack :: ReadyBody(rule.body)
    decreases Pending(stack)
  {
    if stack != [] {
      ExpandStep(stack);
      var init, last, popped := stack[..|stack| - 1], stack[|stack| - 1], Popped(stack);
      assert stack == init + [last];
      FinishedIsEvaluable(last);
      ExpandedAreEvaluable(popped);
      forall l | l in LiftRoot(last.body, last.name) ensures SubscopeRule(l, last.name) in popped {
        LiftedIsPushed(stack, l);
      }
      forall rule | rule in popped
        ensures rule in init || exists l | l in LiftRoot(last.body, last.name) :: rule == SubscopeRule(l, last.name)
      {
        if rule !in init {
          var l := PoppedRule(stack, rule);
        }
      }
    }
  }

  // ---- when a scan fails ----

  lemma {:induction false} BothOfAllNodes(node: Node)
    requires AllNodes(node, NodeIsNoSubscope) && AllNodes(node, NodeIsComFree)
    ensures Evaluable(node)
    decreases node
  {
    forall c | c in Children(node.stmt) && AllNodes(c, NodeIsNoSubscope) && AllNodes(c, NodeIsComFree)
      ensures Evaluable(c)
    {
      BothOfAllNodes(c);
    }
    match node.stmt
    case And(children) =>
    case Or(children) =>
    case SomeOf(_, children) =>
    case Not(child) => assert child in Children(node.stmt);
    case Range(_, _, _) =>
    case Leaf(_) =>
  }

  /** With no subscope below a root, a scan fails exactly when it comes to a body that is itself a subscope. */
  lemma {:induction false} ScanFailsAtRoots(rules: seq<Rule>, n: nat, fs: FeatureSet, addr: Address)
    requires n <= |rules|
    requires forall rule | rule in rules :: NoSubscopeBelowRoot(rule.body) && AllNodes(rule.body, NodeIsComFree)
    ensures LinearScan(rules, n, fs, addr).Ok? <==> forall i | 0 <= i < n :: !rules[i].body.stmt.Subscope?
  {
    if n > 0 {
      ScanFailsAtRoots(rules, n - 1, fs, addr);
      var body := rules[n - 1].body;
      if LinearScan(rules, n - 1, fs, addr).Ok? && !body.stmt.Subscope? {
        assert rules[n - 1] in rules;
        var features := LinearScan(rules, n - 1, fs, addr).value.features;
        BothOfAllNodes(body);
        BooleanMeansHolds(body, features.locs);
        EvaluableSucceeds(body, features, false);
      }
    }
  }

  /**
   Of expanded rules: matching can fail only at a rule whose body, as it was lifted or written, is itself a subscope.
   */
  lemma ExpandedScanFailsIff(stack: seq<Rule>, rs: seq<Rule>, fs: FeatureSet, addr: Address)
    requires forall rule | rule in stack :: AllNodes(rule.body, NodeIsComFree)
    requires forall rule | rule in rs :: rule in Expand(stack)
    ensures LinearScan(rs, |rs|, fs, addr).Ok? <==> forall rule | rule in rs :: !rule.body.stmt.Subscope?
  {
    ExpandedKeep(stack, NodeIsComFree);
    ExpandedLeaveNoSubscope(stack);
    ScanFailsAtRoots(rs, |rs|, fs, addr);
  }
}
