/** capa-x/src/capabilities/ruleset.rs: reordering the children of a rule body by cost. */
module Optimizer {
  import opened Features
  import opened Rules
  import opened Engine
  import opened Sorting

  function FeatureCost(f: Feature): nat {
    if f.Os? || f.Arch? || f.Format? then 0
    else if (f.String? && !f.str.Plain?) || f.Bytes? then 2
    else 1
  }

  function NodeCost(node: Node): nat
    decreases node
  {
    match node.stmt
    case Leaf(f) => FeatureCost(f)
    case Not(child) => 1 + NodeCost(child)
    case Range(f, _, _) => 1 + FeatureCost(f)
    case And(children) => 1 + SumCosts(children)
    case Or(children) => 1 + SumCosts(children)
    case SomeOf(_, children) => 1 + SumCosts(children)
    case Subscope(_, body) => 1 + NodeCost(body)
  }

  function SumCosts(children: seq<Node>): nat
    decreases children
  {
    if children == [] then 0 else SumCosts(children[..|children| - 1]) + NodeCost(children[|children| - 1])
  }

  function Cost(node: Node): int {
    NodeCost(node)
  }

  lemma SortedAreChildren(children: seq<Node>)
    ensures |SortByKey(children, Cost)| == |children|
    ensures forall i | 0 <= i < |SortByKey(children, Cost)| :: SortByKey(children, Cost)[i] in children
    ensures forall c | c in children :: c in SortByKey(children, Cost)
  {
    SortByKeySorts(children, Cost);
    var sorted := SortByKey(children, Cost);
    assert |multiset(sorted)| == |sorted| && |multiset(children)| == |children|;
    forall c ensures c in sorted <==> c in children {
      assert c in multiset(sorted) <==> c in multiset(children);
    }
    assert forall i | 0 <= i < |sorted| :: sorted[i] in sorted;
  }

  function OptimizeNode(node: Node): Node
    decreases node
  {
    match node.stmt
    case And(children) => Node(And(OptimizeList(children)), node.description)
    case Or(children) => Node(Or(OptimizeList(children)), node.description)
    case SomeOf(count, children) => Node(SomeOf(count, OptimizeList(children)), node.description)
    case Not(child) => Node(Not(OptimizeNode(child)), node.description)
    case Subscope(scope, body) => Node(Subscope(scope, OptimizeNode(body)), node.description)
    case Range(_, _, _) => node
    case Leaf(_) => node
  }

  /** Stably sort the immediate children by cost, then optimize each of them. */
  function OptimizeList(children: seq<Node>): seq<Node>
    decreases children
  {
    SortedAreChildren(children);
    var sorted := SortByKey(children, Cost);
    seq(|sorted|, i requires 0 <= i < |sorted| => OptimizeNode(sorted[i]))
  }

  // ---- the cost of a node does not change ----

  lemma {:induction false} SumCostsAppend(a: seq<Node>, x: Node)
    ensures SumCosts(a + [x]) == SumCosts(a) + NodeCost(x)
  {
    assert (a + [x])[..|a|] == a;
  }

  lemma {:induction false} SumCostsInsert(s: seq<Node>, x: Node)
    ensures SumCosts(InsertByKey(s, x, Cost)) == SumCosts(s) + NodeCost(x)
  {
    if s != [] && Cost(s[|s| - 1]) > Cost(x) {
      SumCostsInsert(s[..|s| - 1], x);
      SumCostsAppend(InsertByKey(s[..|s| - 1], x, Cost), s[|s| - 1]);
    } else {
      SumCostsAppend(s, x);
    }
  }

  lemma {:induction false} SumCostsSort(s: seq<Node>)
    ensures SumCosts(SortByKey(s, Cost)) == SumCosts(s)
  {
    if s != [] {
      SumCostsSort(s[..|s| - 1]);
      SumCostsInsert(SortByKey(s[..|s| - 1], Cost), s[|s| - 1]);
    }
  }

  lemma {:induction false} SumCostsSame(a: seq<Node>, b: seq<Node>)
    requires |a| == |b| && forall i | 0 <= i < |a| :: NodeCost(a[i]) == NodeCost(b[i])
    ensures SumCosts(a) == SumCosts(b)
  {
    if a != [] {
      SumCostsSame(a[..|a| - 1], b[..|b| - 1]);
    }
  }

  lemma {:induction false} CostUnchanged(node: Node)
    ensures NodeCost(OptimizeNode(node)) == NodeCost(node)
    decreases node
  {
    match node.stmt
    case And(children) => ListCostUnchanged(children);
    case Or(children) => ListCostUnchanged(children);
    case SomeOf(_, children) => ListCostUnchanged(children);
    case Not(child) => CostUnchanged(child);
    case Subscope(_, body) => CostUnchanged(body);
    case Range(_, _, _) =>
    case Leaf(_) =>
  }

  lemma {:induction false} ListCostUnchanged(children: seq<Node>)
    ensures SumCosts(OptimizeList(children)) == SumCosts(children)
    ensures |OptimizeList(children)| == |children|
    ensures forall i | 0 <= i < |children| ::
              NodeCost(OptimizeList(children)[i]) == NodeCost(SortByKey(children, Cost)[i])
    decreases children
  {
    SortedAreChildren(children);
    var sorted := SortByKey(children, Cost);
    forall i | 0 <= i < |sorted| ensures NodeCost(OptimizeNode(sorted[i])) == NodeCost(sorted[i]) {
      CostUnchanged(sorted[i]);
    }
    SumCostsSame(sorted, OptimizeList(children));
    SumCostsSort(children);
  }

  // ---- every level ends up sorted, and a second pass finds nothing to do ----

  predicate NodeIsSorted(node: Node) {
    node.stmt.And? || node.stmt.Or? || node.stmt.SomeOf? ==>
      forall i, j | 0 <= i < j < |node.stmt.children| ::
        NodeCost(node.stmt.children[i]) <= NodeCost(node.stmt.children[j])
  }

  lemma {:induction false} OptimizedIsSorted(node: Node)
    ensures AllNodes(OptimizeNode(node), NodeIsSorted)
    decreases node
  {
    match node.stmt
    case And(children) =>
      OptimizedListIsSorted(children);
      assert OptimizeNode(node).stmt.children == OptimizeList(children);
    case Or(children) =>
      OptimizedListIsSorted(children);
      assert OptimizeNode(node).stmt.children == OptimizeList(children);
    case SomeOf(_, children) =>
      OptimizedListIsSorted(children);
      assert OptimizeNode(node).stmt.children == OptimizeList(children);
    case Not(child) => OptimizedIsSorted(child);
    case Subscope(_, body) => OptimizedIsSorted(body);
    case Range(_, _, _) =>
    case Leaf(_) =>
  }

  lemma {:induction false} OptimizedListIsSorted(children: seq<Node>)
    ensures forall c | c in OptimizeList(children) :: AllNodes(c, NodeIsSorted)
    ensures var r := OptimizeList(children);
            forall i, j | 0 <= i < j < |r| :: NodeCost(r[i]) <= NodeCost(r[j])
    decreases children
  {
    SortedAreChildren(children);
    SortByKeySorts(children, Cost);
    ListCostUnchanged(children);
    var sorted, r := SortByKey(children, Cost), OptimizeList(children);
    forall i | 0 <= i < |sorted| ensures AllNodes(OptimizeNode(sorted[i]), NodeIsSorted) {
      OptimizedIsSorted(sorted[i]);
    }
    forall i, j | 0 <= i < j < |r| ensures NodeCost(r[i]) <= NodeCost(r[j]) {
      assert Cost(sorted[i]) <= Cost(sorted[j]);
    }
  }

  predicate IsGlobal(f: Feature) {
    f.Os? || f.Arch? || f.Format?
  }

  /** A string or byte pattern, which is tried on every extracted string or byte sequence. */
  predicate IsPattern(f: Feature) {
    f.Bytes? || (f.String? && (f.str.Substring? || f.str.Regex?))
  }

  /** Among the children of an optimized statement the global checks come first, and the patterns last. */
  lemma CheapLeavesComeFirst(node: Node, i: nat, j: nat)
    requires node.stmt.And? || node.stmt.Or? || node.stmt.SomeOf?
    requires i < j < |OptimizeNode(node).stmt.children|
    ensures var a, b := OptimizeNode(node).stmt.children[i].stmt, OptimizeNode(node).stmt.children[j].stmt;
            a.Leaf? && b.Leaf? ==>
              (IsGlobal(b.feature) ==> IsGlobal(a.feature)) && (IsPattern(a.feature) ==> IsPattern(b.feature))
  {
    OptimizedIsSorted(node);
    assert NodeIsSorted(OptimizeNode(node));
  }

  lemma {:induction false} SortedIsFixed(node: Node)
    requires AllNodes(node, NodeIsSorted)
    ensures OptimizeNode(node) == node
    decreases node
  {
    match node.stmt
    case And(children) => SortedListIsFixed(children);
    case Or(children) => SortedListIsFixed(children);
    case SomeOf(_, children) => SortedListIsFixed(children);
    case Not(child) => SortedIsFixed(child);
    case Subscope(_, body) => SortedIsFixed(body);
    case Range(_, _, _) =>
    case Leaf(_) =>
  }

  lemma {:induction false} SortedListIsFixed(children: seq<Node>)
    requires forall c | c in children :: AllNodes(c, NodeIsSorted)
    requires forall i, j | 0 <= i < j < |children| :: NodeCost(children[i]) <= NodeCost(children[j])
    ensures OptimizeList(children) == children
    decreases children
  {
    SortedStays(children, Cost);
    forall i | 0 <= i < |children| ensures OptimizeNode(children[i]) == children[i] {
      SortedIsFixed(children[i]);
    }
  }

  lemma SecondPassChangesNothing(node: Node)
    ensures OptimizeNode(OptimizeNode(node)) == OptimizeNode(node)
  {
    OptimizedIsSorted(node);
    SortedIsFixed(OptimizeNode(node));
  }

  // ---- what a body says does not depend on the order of children ----

  /** How many of `nodes` satisfy `p`. */
  ghost function Count(nodes: seq<Node>, p: Node -> bool): nat {
    if nodes == [] then 0 else Count(nodes[..|nodes| - 1], p) + (if p(nodes[|nodes| - 1]) then 1 else 0)
  }

  lemma CountAppend(nodes: seq<Node>, x: Node, p: Node -> bool)
    ensures Count(nodes + [x], p) == Count(nodes, p) + (if p(x) then 1 else 0)
  {
    assert (nodes + [x])[..|nodes|] == nodes;
  }

  lemma {:induction false} CountInsert(s: seq<Node>, x: Node, p: Node -> bool)
    ensures Count(InsertByKey(s, x, Cost), p) == Count(s, p) + (if p(x) then 1 else 0)
  {
    if s != [] && Cost(s[|s| - 1]) > Cost(x) {
      CountInsert(s[..|s| - 1], x, p);
      CountAppend(InsertByKey(s[..|s| - 1], x, Cost), s[|s| - 1], p);
    } else {
      CountAppend(s, x, p);
    }
  }

  lemma {:induction false} CountSort(s: seq<Node>, p: Node -> bool)
    ensures Count(SortByKey(s, Cost), p) == Count(s, p)
  {
    if s != [] {
      CountSort(s[..|s| - 1], p);
      CountInsert(SortByKey(s[..|s| - 1], Cost), s[|s| - 1], p);
    }
  }

  lemma {:induction false} CountSame(a: seq<Node>, b: seq<Node>, p: Node -> bool)
    requires |a| == |b| && forall i | 0 <= i < |a| :: p(a[i]) == p(b[i])
    ensures Count(a, p) == Count(b, p)
  {
    if a != [] {
      CountSame(a[..|a| - 1], b[..|b| - 1], p);
    }
  }

  lemma {:induction false} CountAtMost(s: seq<Node>, p: Node -> bool)
    ensures Count(s, p) <= |s|
  {
    if s != [] {
      CountAtMost(s[..|s| - 1], p);
    }
  }

  lemma {:induction false} CountOfAll(s: seq<Node>, p: Node -> bool)
    ensures Count(s, p) == |s| <==> forall i | 0 <= i < |s| :: p(s[i])
  {
    if s != [] {
      CountAtMost(s[..|s| - 1], p);
      CountOfAll(s[..|s| - 1], p);
    }
  }

  lemma {:induction false} CountOfAny(s: seq<Node>, p: Node -> bool)
    ensures Count(s, p) > 0 <==> exists i | 0 <= i < |s| :: p(s[i])
  {
    if s != [] {
      CountOfAny(s[..|s| - 1], p);
      if i :| 0 <= i < |s| && p(s[i]) {
        assert i < |s| - 1 ==> p(s[..|s| - 1][i]);
      }
    }
  }

  lemma CountBounds(s: seq<Node>, p: Node -> bool)
    ensures Count(s, p) == |s| <==> forall c | c in s :: p(c)
    ensures Count(s, p) > 0 <==> exists c | c in s :: p(c)
  {
    CountOfAll(s, p);
    CountOfAny(s, p);
  }

  /** If optimizing each child keeps `p`, optimizing the list keeps how many children satisfy it. */
  lemma ListKeepsCount(children: seq<Node>, p: Node -> bool)
    requires forall c | c in children :: p(OptimizeNode(c)) == p(c)
    ensures Count(OptimizeList(children), p) == Count(children, p)
    ensures |OptimizeList(children)| == |children|
  {
    SortedAreChildren(children);
    var sorted := SortByKey(children, Cost);
    CountSame(sorted, OptimizeList(children), p);
    CountSort(children, p);
  }

  lemma {:induction false} CountHoldingIsCount(children: seq<Node>, locs: map<Feature, set<Address>>)
    ensures CountHolding(children, locs) == Count(children, c => Holds(c, locs))
  {
    if children != [] {
      CountHoldingIsCount(children[1..], locs);
      CountCons(children, c => Holds(c, locs));
    }
  }

  lemma {:induction false} CountCons(s: seq<Node>, p: Node -> bool)
    requires s != []
    ensures Count(s, p) == (if p(s[0]) then 1 else 0) + Count(s[1..], p)
  {
    if |s| > 1 {
      CountCons(s[..|s| - 1], p);
      assert s[..|s| - 1][1..] == s[1..][..|s| - 2];
    } else {
      assert s[..0] == [] && s[1..] == [];
    }
  }

  /** Optimizing a body does not change whether it holds. */
  lemma {:induction false} OptimizedHolds(node: Node, locs: map<Feature, set<Address>>)
    ensures Holds(OptimizeNode(node), locs) <==> Holds(node, locs)
    decreases node
  {
    match node.stmt
    case And(children) => OptimizedListHolds(children, locs);
    case Or(children) => OptimizedListHolds(children, locs);
    case SomeOf(_, children) => OptimizedListHolds(children, locs);
    case Not(child) => OptimizedHolds(child, locs);
    case Subscope(_, _) =>
    case Range(_, _, _) =>
    case Leaf(_) =>
  }

  lemma {:induction false} OptimizedListHolds(children: seq<Node>, locs: map<Feature, set<Address>>)
    ensures var r := OptimizeList(children);
            && ((forall c | c in r :: Holds(c, locs)) <==> forall c | c in children :: Holds(c, locs))
            && ((exists c | c in r :: Holds(c, locs)) <==> exists c | c in children :: Holds(c, locs))
            && CountHolding(r, locs) == CountHolding(children, locs)
            && (r == [] <==> children == [])
    decreases children
  {
    var p := c => Holds(c, locs);
    forall c | c in children ensures p(OptimizeNode(c)) == p(c) {
      OptimizedHolds(c, locs);
    }
    var r := OptimizeList(children);
    ListKeepsCount(children, p);
    CountBounds(children, p);
    CountBounds(r, p);
    CountHoldingIsCount(children, locs);
    CountHoldingIsCount(r, locs);
    assert forall c :: p(c) == Holds(c, locs);
  }

  lemma {:induction false} OptimizedKeepsShape(node: Node, p: Node -> bool)
    requires forall n :: p(n) <==> p(OptimizeNode(n))
    ensures AllNodes(OptimizeNode(node), p) <==> AllNodes(node, p)
    decreases node
  {
    match node.stmt
    case And(children) => OptimizedListKeepsShape(children, p);
    case Or(children) => OptimizedListKeepsShape(children, p);
    case SomeOf(_, children) => OptimizedListKeepsShape(children, p);
    case Not(child) => OptimizedKeepsShape(child, p);
    case Subscope(_, body) => OptimizedKeepsShape(body, p);
    case Range(_, _, _) =>
    case Leaf(_) =>
  }

  lemma {:induction false} OptimizedListKeepsShape(children: seq<Node>, p: Node -> bool)
    requires forall n :: p(n) <==> p(OptimizeNode(n))
    ensures (forall c | c in OptimizeList(children) :: AllNodes(c, p)) <==> forall c | c in children :: AllNodes(c, p)
    decreases children
  {
    SortedAreChildren(children);
    var sorted := SortByKey(children, Cost);
    forall i | 0 <= i < |sorted| ensures AllNodes(OptimizeNode(sorted[i]), p) <==> AllNodes(sorted[i], p) {
      assert sorted[i] in children;
      OptimizedKeepsShape(sorted[i], p);
    }
    var r := OptimizeList(children);
    forall c | c in children ensures OptimizeNode(c) in r {
      var i :| 0 <= i < |sorted| && sorted[i] == c;
      assert r[i] == OptimizeNode(c);
    }
    forall c | c in children ensures AllNodes(OptimizeNode(c), p) <==> AllNodes(c, p) {
      var i :| 0 <= i < |sorted| && sorted[i] == c;
    }
  }

  lemma OptimizedIsEvaluable(node: Node)
    ensures Evaluable(OptimizeNode(node)) <==> Evaluable(node)
  {
    forall n ensures NodeIsEvaluable(n) <==> NodeIsEvaluable(OptimizeNode(n)) {
    }
    OptimizedKeepsShape(node, NodeIsEvaluable);
  }

  /** The optimizer never changes the verdict of the boolean pass on an evaluable body. */
  lemma OptimizedEvaluates(node: Node, locs: map<Feature, set<Address>>)
    requires Evaluable(node)
    ensures EvaluateBoolean(OptimizeNode(node), locs) == EvaluateBoolean(node, locs)
  {
    OptimizedIsEvaluable(node);
    BooleanMeansHolds(node, locs);
    BooleanMeansHolds(OptimizeNode(node), locs);
    OptimizedHolds(node, locs);
  }
}
