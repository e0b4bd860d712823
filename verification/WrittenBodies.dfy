/**
 What building a rule set leaves of the bodies as they were written: statements, leaves and descriptions all stay, with
 children reordered, and in the place of each subscope stands a reference to a rule made of it.
 */
module WrittenBodies {
  import opened Base
  import opened Rules
  import opened Sorting
  import opened Optimizer
  import opened Extraction
  import opened ExtractionSemantics

  // ---- reordering ----

  /** `after` are the nodes of `before`, each reordered within, in some order. */
  ghost predicate ListReorders(before: seq<Node>, after: seq<Node>)
    decreases before, 1
  {
    exists moved | multiset(moved) == multiset(before) :: EachReorders(before, moved, after)
  }

  ghost predicate EachReorders(before: seq<Node>, moved: seq<Node>, after: seq<Node>)
    decreases before, 0
  {
    |after| == |moved| && forall i | 0 <= i < |moved| :: moved[i] in before && Reorders(moved[i], after[i])
  }

  /** The same body, but for the order of children. */
  ghost predicate Reorders(before: Node, after: Node)
    decreases before, 1
  {
    && after.description == before.description
    && match before.stmt
       case And(children) => after.stmt.And? && ListReorders(children, after.stmt.children)
       case Or(children) => after.stmt.Or? && ListReorders(children, after.stmt.children)
       case SomeOf(count, children) =>
         after.stmt.SomeOf? && after.stmt.count == count && ListReorders(children, after.stmt.children)
       case Not(child) => after.stmt.Not? && Reorders(child, after.stmt.child)
       case Subscope(scope, body) =>
         after.stmt.Subscope? && after.stmt.scope == scope && Reorders(body, after.stmt.body)
       case Range(_, _, _) => after == before
       case Leaf(_) => after == before
  }

  lemma {:induction false} OptimizedReorders(node: Node)
    ensures Reorders(node, OptimizeNode(node))
    decreases node, 1
  {
    match node.stmt
    case And(children) => OptimizedListReorders(children);
    case Or(children) => OptimizedListReorders(children);
    case SomeOf(_, children) => OptimizedListReorders(children);
    case Not(child) => OptimizedReorders(child);
    case Subscope(_, body) => OptimizedReorders(body);
    case Range(_, _, _) =>
    case Leaf(_) =>
  }

  lemma {:induction false} OptimizedListReorders(children: seq<Node>)
    ensures ListReorders(children, OptimizeList(children))
    decreases children, 0
  {
    var sorted := SortByKey(children, Cost);
    SortedAreChildren(children);
    SortByKeySorts(children, Cost);
    forall i | 0 <= i < |sorted| ensures sorted[i] in children && Reorders(sorted[i], OptimizeList(children)[i]) {
      OptimizedReorders(sorted[i]);
    }
    assert EachReorders(children, sorted, OptimizeList(children));
  }

  // ---- references in the place of subscopes ----

  /** The rule was made of a subscope of `parent`: it is marked as such, and is of that scope only. */
  predicate IsMadeOf(rule: Rule, parent: string, scope: Scope) {
    && rule.namespace.None?
    && rule.scopes == (if scope in {ProcessScope, ThreadScope, SpanOfCallsScope, CallScope}
                       then Scopes(None, Some(scope)) else Scopes(Some(scope), None))
    && rule.raw == map["name" := MetaString(rule.name), "lib" := MetaBool(true),
                       "capa/subscope-rule" := MetaBool(true), "capa/parent" := MetaString(parent)]
  }

  /** `built` is `written` with a reference in the place of each subscope, to a rule that was built from it. */
  ghost predicate Refers(all: seq<Rule>, parent: string, written: Node, built: Node)
    decreases written, 0
  {
    if written.stmt.Subscope? then
      && built.description.None? && built.stmt.Leaf? && built.stmt.feature.MatchedRule?
      && exists rule | rule in all ::
           && rule.name == built.stmt.feature.name && IsMadeOf(rule, parent, written.stmt.scope)
           && Restates(all, rule.name, written.stmt.body, rule.body)
    else
      && built.description == written.description
      && match written.stmt
         case And(children) => built.stmt.And? && ListRefers(all, parent, children, built.stmt.children)
         case Or(children) => built.stmt.Or? && ListRefers(all, parent, children, built.stmt.children)
         case SomeOf(count, children) =>
           built.stmt.SomeOf? && built.stmt.count == count && ListRefers(all, parent, children, built.stmt.children)
         case Not(child) => built.stmt.Not? && Refers(all, parent, child, built.stmt.child)
         case Range(_, _, _) => built == written
         case Leaf(_) => built == written
  }

  ghost predicate ListRefers(all: seq<Rule>, parent: string, written: seq<Node>, built: seq<Node>)
    decreases written, 0
  {
    |built| == |written| && forall i | 0 <= i < |written| :: Refers(all, parent, written[i], built[i])
  }

  /** `built` is the body of the rule so named as it was written, with references for subscopes and reordered. */
  ghost predicate Restates(all: seq<Rule>, name: string, written: Node, built: Node)
    decreases written, 1
  {
    exists referring :: Refers(all, name, written, referring) && Reorders(referring, built)
  }

  // ---- expansion ----

  lemma {:induction false} RewrittenRefers(all: seq<Rule>, node: Node, name: string, k: nat)
    requires AllNodes(node, NodeNestsProperly)
    requires forall l | l in Lift(node, name, k) :: Covers(all, SubscopeRule(l, name))
    ensures Refers(all, name, node, Rewrite(node, name, k))
    decreases node, 1
  {
    match node.stmt
    case And(children) => RewrittenListRefers(all, children, name, k);
    case Or(children) => RewrittenListRefers(all, children, name, k);
    case SomeOf(_, children) => RewrittenListRefers(all, children, name, k);
    case Not(child) => RewrittenRefers(all, child, name, k);
    case Subscope(scope, body) =>
      var l := Lifted(SubscopeName(name, k + 1), scope, body);
      assert l in Lift(node, name, k);
      LiftedIsMadeOf(all, l, name);
    case Range(_, _, _) =>
    case Leaf(_) =>
  }

  /** A lifted subscope's rule restates it. */
  lemma {:induction false} LiftedIsMadeOf(all: seq<Rule>, l: Lifted, parent: string)
    requires Covers(all, SubscopeRule(l, parent)) && AllNodes(l.body, NodeNestsProperly) && !l.body.stmt.Subscope?
    ensures var rule := Finished(SubscopeRule(l, parent));
            && rule in all && rule.name == l.name && IsMadeOf(rule, parent, l.scope)
            && Restates(all, rule.name, l.body, rule.body)
    decreases l.body, 2
  {
    RewrittenRefers(all, l.body, l.name, 0);
    OptimizedReorders(Rewrite(l.body, l.name, 0));
  }

  lemma {:induction false} RewrittenListRefers(all: seq<Rule>, children: seq<Node>, name: string, k: nat)
    requires forall c | c in children :: AllNodes(c, NodeNestsProperly)
    requires forall l | l in LiftList(children, name, k) :: Covers(all, SubscopeRule(l, name))
    ensures ListRefers(all, name, children, RewriteList(children, name, k))
    decreases children, 0
  {
    if children != [] {
      var first := Lift(children[0], name, k);
      forall l | l in first || l in LiftList(children[1..], name, k + |first|)
        ensures Covers(all, SubscopeRule(l, name))
      {
        assert l in LiftList(children, name, k);
      }
      RewrittenRefers(all, children[0], name, k);
      RewrittenListRefers(all, children[1..], name, k + |first|);
    }
  }

  /**
   A built rule set has every written rule under its own name, namespace and scopes, with a body that restates what was
   written: nothing is lost but the descriptions of subscopes.
   */
  lemma BuiltRestates(rules: seq<Rule>, rule: Rule)
    requires rule in rules && SubscopesBelowRoots(rule.body)
    ensures Finished(rule) in Expand(rules) && rule.(body := Finished(rule).body) == Finished(rule)
    ensures Restates(Expand(rules), rule.name, rule.body, Finished(rule).body)
  {
    ExpandCovers(rules, rule);
    RewrittenRefers(Expand(rules), rule.body, rule.name, 0);
    OptimizedReorders(Rewrite(rule.body, rule.name, 0));
  }
}
