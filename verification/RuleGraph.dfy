/** capa-x/src/rules/graph.rs: `match:` resolution, the namespace index, and topological ordering. */
module RuleGraph {
  import opened Base
  import opened Rules

  // ---- dependencies ----

  type Namespaces = map<string, seq<string>>

  /** A `match:` value names a namespace if the index knows it, and a rule otherwise. */
  function Register(value: string, namespaces: Namespaces): set<string> {
    if value in namespaces then set n | n in namespaces[value] else {value}
  }

  /** The `match:` values in a body, in leaves and in `count(match(..))`, subscope bodies included. */
  function References(node: Node): set<string>
    decreases node
  {
    match node.stmt
    case And(children) => ListReferences(children)
    case Or(children) => ListReferences(children)
    case SomeOf(_, children) => ListReferences(children)
    case Not(child) => References(child)
    case Subscope(_, body) => References(body)
    case Range(f, _, _) => if f.MatchedRule? then {f.name} else {}
    case Leaf(f) => if f.MatchedRule? then {f.name} else {}
  }

  function ListReferences(children: seq<Node>): set<string>
    decreases children
  {
    if children == [] then {} else References(children[0]) + ListReferences(children[1..])
  }

  function Resolve(references: set<string>, namespaces: Namespaces): set<string> {
    set value, n | value in references && n in Register(value, namespaces) :: n
  }

  function Dependencies(body: Node, namespaces: Namespaces): set<string> {
    Resolve(References(body), namespaces)
  }

  /** `get_dependencies`: one walk over the tree that registers every `match:` value it meets. */
  method GetDependencies(body: Node, namespaces: Namespaces) returns (deps: set<string>)
    ensures deps == Dependencies(body, namespaces)
  {
    deps := Walk(body, namespaces, {});
  }

  method Walk(node: Node, namespaces: Namespaces, before: set<string>) returns (deps: set<string>)
    ensures deps == before + Resolve(References(node), namespaces)
    decreases node
  {
    match node.stmt
    case And(children) => deps := WalkList(children, namespaces, before);
    case Or(children) => deps := WalkList(children, namespaces, before);
    case SomeOf(_, children) => deps := WalkList(children, namespaces, before);
    case Not(child) => deps := Walk(child, namespaces, before);
    case Subscope(_, body) => deps := Walk(body, namespaces, before);
    case Range(f, _, _) => deps := if f.MatchedRule? then before + Register(f.name, namespaces) else before;
    case Leaf(f) => deps := if f.MatchedRule? then before + Register(f.name, namespaces) else before;
  }

  method WalkList(children: seq<Node>, namespaces: Namespaces, before: set<string>) returns (deps: set<string>)
    ensures deps == before + Resolve(ListReferences(children), namespaces)
    decreases children
  {
    deps := before;
    for i := 0 to |children|
      invariant deps + Resolve(ListReferences(children[i..]), namespaces)
                == before + Resolve(ListReferences(children), namespaces)
    {
      deps := Walk(children[i], namespaces, deps);
      assert children[i..][1..] == children[i + 1..];
    }
  }

  // ---- the namespace index ----

  /** The prefixes under which the index lists a namespace; unlike publication, it stops before the empty one. */
  function IndexPrefixes(namespace: string): seq<string> {
    if namespace == "" then []
    else
      match LastSlash(namespace)
      case Some(i) => [namespace] + IndexPrefixes(namespace[..i])
      case None => [namespace]
  }

  lemma {:induction false} IndexedPrefixes(namespace: string, p: string)
    ensures p in IndexPrefixes(namespace) <==> p in RuleNamespaces(namespace) && p != ""
    decreases |namespace|
  {
    if namespace == "" {
      assert LastSlash(namespace) == None;
    } else if LastSlash(namespace).Some? {
      IndexedPrefixes(namespace[..LastSlash(namespace).value], p);
    }
  }

  function RulePrefixes(rule: Rule): seq<string> {
    if rule.namespace.Some? then IndexPrefixes(rule.namespace.value) else []
  }

  /** The rules listed under prefix `p`, in order. */
  function Members(rules: seq<Rule>, p: string): seq<string> {
    if rules == [] then []
    else
      var init, last := Members(rules[..|rules| - 1], p), rules[|rules| - 1];
      if p in RulePrefixes(last) then init + [last.name] else init
  }

  function AllPrefixes(rules: seq<Rule>): set<string> {
    set r, p | r in rules && p in RulePrefixes(r) :: p
  }

  function NamespaceIndex(rules: seq<Rule>): Namespaces {
    map p | p in AllPrefixes(rules) :: Members(rules, p)
  }

  lemma {:induction false} PrefixesShrink(namespace: string)
    ensures forall p | p in IndexPrefixes(namespace) :: |p| <= |namespace|
    ensures Distinct(IndexPrefixes(namespace))
    decreases |namespace|
  {
    if namespace != "" && LastSlash(namespace).Some? {
      var shorter := namespace[..LastSlash(namespace).value];
      PrefixesShrink(shorter);
      DistinctConcat([namespace], IndexPrefixes(shorter));
    }
  }

  lemma {:induction false} MembersOf(rules: seq<Rule>, p: string)
    ensures forall n :: n in Members(rules, p) <==> exists r | r in rules :: r.name == n && p in RulePrefixes(r)
  {
    if rules != [] {
      var init, last := rules[..|rules| - 1], rules[|rules| - 1];
      MembersOf(init, p);
      assert rules == init + [last];
      forall n
        ensures n in Members(rules, p) <==> exists r | r in rules :: r.name == n && p in RulePrefixes(r)
      {
        if r :| r in rules && r.name == n && p in RulePrefixes(r) {
          assert r in init || r == last;
        }
        if n in Members(init, p) {
          var r :| r in init && r.name == n && p in RulePrefixes(r);
          assert r in rules;
        }
      }
    }
  }

  function Pushed(index: Namespaces, p: string, name: string): Namespaces {
    index[p := (if p in index then index[p] else []) + [name]]
  }

  function PushedAll(index: Namespaces, prefixes: seq<string>, name: string): Namespaces
    decreases prefixes
  {
    if prefixes == [] then index else PushedAll(Pushed(index, prefixes[0], name), prefixes[1..], name)
  }

  lemma {:induction false} PushedAllContents(index: Namespaces, prefixes: seq<string>, name: string, p: string)
    requires Distinct(prefixes)
    ensures p in PushedAll(index, prefixes, name) <==> p in index || p in prefixes
    ensures p in PushedAll(index, prefixes, name) ==>
              PushedAll(index, prefixes, name)[p]
              == (if p in index then index[p] else []) + (if p in prefixes then [name] else [])
    decreases prefixes
  {
    if prefixes != [] {
      DistinctMeans(prefixes);
      DistinctMeans(prefixes[1..]);
      PushedAllContents(Pushed(index, prefixes[0], name), prefixes[1..], name, p);
    }
  }

  lemma IndexNextRule(rules: seq<Rule>, rule: Rule)
    ensures PushedAll(NamespaceIndex(rules), RulePrefixes(rule), rule.name) == NamespaceIndex(rules + [rule])
  {
    var before, after := NamespaceIndex(rules), NamespaceIndex(rules + [rule]);
    var pushed := PushedAll(before, RulePrefixes(rule), rule.name);
    forall p ensures p in pushed <==> p in after
      ensures p in pushed ==> pushed[p] == after[p]
    {
      IndexNextPrefix(rules, rule, p);
    }
  }

  lemma IndexNextPrefix(rules: seq<Rule>, rule: Rule, p: string)
    ensures var pushed, after :=
            PushedAll(NamespaceIndex(rules), RulePrefixes(rule), rule.name), NamespaceIndex(rules + [rule]);
            (p in pushed <==> p in after) && (p in pushed ==> pushed[p] == after[p])
  {
    if rule.namespace.Some? {
      PrefixesShrink(rule.namespace.value);
    }
    PushedAllContents(NamespaceIndex(rules), RulePrefixes(rule), rule.name, p);
    PrefixOfSome(rules + [rule], p);
    PrefixOfSome(rules, p);
    assert forall r :: r in rules + [rule] <==> r in rules || r == rule;
    assert (rules + [rule])[..|rules|] == rules;
    if p !in NamespaceIndex(rules) {
      NoMembers(rules, p);
    }
  }

  lemma PrefixOfSome(rules: seq<Rule>, p: string)
    ensures p in NamespaceIndex(rules) <==> exists r | r in rules :: p in RulePrefixes(r)
  {
  }

  lemma NoMembers(rules: seq<Rule>, p: string)
    requires !exists r | r in rules :: p in RulePrefixes(r)
    ensures Members(rules, p) == []
  {
  }

  /** `index_rules_by_namespace`: each rule is pushed under its namespace and every ancestor of it. */
  method IndexRulesByNamespace(rules: seq<Rule>) returns (index: Namespaces)
    ensures index == NamespaceIndex(rules)
  {
    index := map[];
    for n := 0 to |rules|
      invariant index == NamespaceIndex(rules[..n])
    {
      var rule := rules[n];
      IndexNextRule(rules[..n], rule);
      assert rules[..n] + [rule] == rules[..n + 1];
      if rule.namespace.Some? {
        index := IndexUnderPrefixes(index, rule.namespace.value, rule.name);
      }
    }
    assert rules[..|rules|] == rules;
  }

  method IndexUnderPrefixes(before: Namespaces, namespace: string, name: string) returns (index: Namespaces)
    ensures index == PushedAll(before, IndexPrefixes(namespace), name)
  {
    index := before;
    var current := namespace;
    while current != ""
      invariant PushedAll(index, IndexPrefixes(current), name) == PushedAll(before, IndexPrefixes(namespace), name)
      decreases |current|
    {
      index := Pushed(index, current, name);
      match LastSlash(current)
      case Some(i) =>
        assert IndexPrefixes(current)[1..] == IndexPrefixes(current[..i]);
        current := current[..i];
      case None => return;
    }
  }

  // ---- graphs, cycles and orders ----

  /** For each rule name, the names it depends on. */
  type Graph = map<string, set<string>>

  function GraphOf(rules: seq<Rule>, namespaces: Namespaces): Graph {
    if rules == [] then map[]
    else
      var last := rules[|rules| - 1];
      GraphOf(rules[..|rules| - 1], namespaces)[last.name := Dependencies(last.body, namespaces)]
  }

  ghost predicate Edge(g: Graph, a: string, b: string) {
    a in g && b in g[a]
  }

  /** Each name on the path depends on the next. */
  ghost predicate IsPath(g: Graph, path: seq<string>) {
    forall i | 0 <= i < |path| - 1 :: Edge(g, path[i], path[i + 1])
  }

  ghost predicate IsCycle(g: Graph, path: seq<string>) {
    path != [] && IsPath(g, path) && Edge(g, path[|path| - 1], path[0])
  }

  ghost predicate Acyclic(g: Graph) {
    forall path :: !IsCycle(g, path)
  }

  /** Each name comes after everything it depends on. */
  ghost predicate DependenciesBefore(g: Graph, order: seq<string>) {
    forall i, d | 0 <= i < |order| && Edge(g, order[i], d) :: d in order[..i]
  }

  /** No name twice, and each name after everything it depends on. */
  ghost predicate DependencyFirst(g: Graph, order: seq<string>) {
    Distinct(order) && DependenciesBefore(g, order)
  }

  /** Where `name` first occurs. */
  function PositionOf(order: seq<string>, name: string): (i: nat)
    requires name in order
    ensures i < |order| && order[i] == name && name !in order[..i]
  {
    if order[0] == name then 0 else
      assert order == [order[0]] + order[1..];
      var i := PositionOf(order[1..], name);
      assert order[..i + 1] == [order[0]] + order[1..][..i];
      1 + i
  }

  lemma EdgesDescend(g: Graph, order: seq<string>, a: string, b: string)
    requires DependenciesBefore(g, order) && a in order && Edge(g, a, b)
    ensures b in order && PositionOf(order, b) < PositionOf(order, a)
  {
    var i := PositionOf(order, a);
    assert b in order[..i];
    var j :| 0 <= j < i && order[j] == b;
  }

  lemma {:induction false} PathsDescend(g: Graph, order: seq<string>, path: seq<string>)
    requires DependenciesBefore(g, order) && path != [] && IsPath(g, path) && path[0] in order
    ensures path[|path| - 1] in order && PositionOf(order, path[|path| - 1]) <= PositionOf(order, path[0])
  {
    if |path| > 1 {
      var init := path[..|path| - 1];
      PathsDescend(g, order, init);
      assert Edge(g, path[|path| - 2], path[|path| - 1]);
      EdgesDescend(g, order, path[|path| - 2], path[|path| - 1]);
    }
  }

  /** An order of all the names in which each follows its dependencies rules out every cycle. */
  lemma OrderedIsAcyclic(g: Graph, order: seq<string>)
    requires DependenciesBefore(g, order) && forall n | n in g :: n in order
    ensures Acyclic(g)
  {
    forall path ensures !IsCycle(g, path) {
      if IsCycle(g, path) {
        assert path[|path| - 1] in g;
        if |path| > 1 {
          assert Edge(g, path[0], path[1]);
        }
        PathsDescend(g, order, path);
        EdgesDescend(g, order, path[|path| - 1], path[0]);
      }
    }
  }

  /** The names can be listed, each after everything it depends on. */
  ghost predicate HasOrder(g: Graph) {
    exists order :: ListsInOrder(g, order)
  }

  ghost predicate ListsInOrder(g: Graph, order: seq<string>) {
    DependenciesBefore(g, order) && forall n | n in g :: n in order
  }

  lemma OrderGrows(g: Graph, order: seq<string>, name: string)
    requires DependencyFirst(g, order) && name !in order && (name in g ==> forall d | d in g[name] :: d in order)
    ensures DependencyFirst(g, order + [name])
  {
    DistinctAppend(order, name);
    DependenciesBeforeAppend(g, order, name);
  }

  lemma DependenciesBeforeAppend(g: Graph, order: seq<string>, name: string)
    requires DependenciesBefore(g, order) && forall d | Edge(g, name, d) :: d in order
    ensures DependenciesBefore(g, order + [name])
  {
    var longer := order + [name];
    forall i, d | 0 <= i < |longer| && Edge(g, longer[i], d) ensures d in longer[..i] {
      if i < |order| {
        assert d in order[..i];
        assert longer[..i] == order[..i];
      } else {
        assert longer[..i] == order;
      }
    }
  }

  lemma PathEndClosesCycle(g: Graph, path: seq<string>, k: nat)
    requires k < |path| && IsPath(g, path) && Edge(g, path[|path| - 1], path[k])
    ensures IsCycle(g, path[k..])
  {
    var c := path[k..];
    forall i | 0 <= i < |c| - 1 ensures Edge(g, c[i], c[i + 1]) {
      assert Edge(g, path[k + i], path[k + i + 1]);
    }
  }

  lemma PathExtends(g: Graph, path: seq<string>, name: string)
    requires IsPath(g, path) && (path != [] ==> Edge(g, path[|path| - 1], name))
    ensures IsPath(g, path + [name])
  {
  }

  // ---- an acyclic graph has an order ----

  /** Going from dependency to dependency within `rest` ends at a name with none left in it. */
  lemma {:induction false} SinkFrom(g: Graph, rest: set<string>, path: seq<string>) returns (n: string)
    requires Acyclic(g) && IsPath(g, path) && path != [] && forall x | x in path :: x in rest
    ensures n in rest && forall d | Edge(g, n, d) :: d !in rest
    decreases rest - set x | x in path
  {
    n := path[|path| - 1];
    if d :| Edge(g, n, d) && d in rest {
      if k :| 0 <= k < |path| && path[k] == d {
        PathEndClosesCycle(g, path, k);
        assert false;
      }
      PathExtends(g, path, d);
      var longer := path + [d];
      assert forall x :: x in longer <==> x in path || x == d;
      assert d in rest - (set x | x in path) && d !in rest - (set x | x in longer);
      n := SinkFrom(g, rest, longer);
    }
  }

  lemma {:induction false} OrderRest(g: Graph, order: seq<string>, rest: set<string>) returns (r: seq<string>)
    requires Acyclic(g) && Complete(g) && DependencyFirst(g, order)
    requires forall n :: n in g <==> n in order || n in rest
    requires forall n | n in rest :: n !in order
    ensures DependencyFirst(g, r) && forall n :: n in r <==> n in g
    decreases rest
  {
    if rest == {} {
      r := order;
    } else {
      var x :| x in rest;
      var n := SinkFrom(g, rest, [x]);
      forall d | d in g[n] ensures d in order {
        assert Edge(g, n, d);
      }
      OrderGrows(g, order, n);
      r := OrderRest(g, order + [n], rest - {n});
    }
  }

  /** The names of a complete graph without cycles can be listed dependencies first. */
  lemma AcyclicHasOrder(g: Graph) returns (order: seq<string>)
    requires Acyclic(g) && Complete(g)
    ensures DependencyFirst(g, order) && forall n :: n in order <==> n in g
  {
    order := OrderRest(g, [], g.Keys);
  }

  // ---- topological ordering with cycle detection ----

  datatype RuleError = Duplicate(name: string) | NoRules | MissingRule(name: string) | Circular(name: string)

  datatype Mark = Visiting | Done

  /** `path` lists the names being visited, outermost first; `order` those that are done. */
  ghost predicate WalkState(g: Graph, marks: map<string, Mark>, order: seq<string>, path: seq<string>) {
    && IsPath(g, path)
    && marks.Keys <= g.Keys
    && (forall n :: n in marks && marks[n] == Visiting <==> n in path)
    && (forall n :: n in marks && marks[n] == Done <==> n in order)
    && DependencyFirst(g, order)
  }

  lemma EnterKeepsState(g: Graph, marks: map<string, Mark>, order: seq<string>, path: seq<string>, name: string)
    requires WalkState(g, marks, order, path) && name in g && name !in marks
    requires path != [] ==> Edge(g, path[|path| - 1], name)
    ensures WalkState(g, marks[name := Visiting], order, path + [name])
  {
    PathExtends(g, path, name);
  }

  lemma LeaveKeepsState(g: Graph, marks: map<string, Mark>, order: seq<string>, path: seq<string>, name: string)
    requires WalkState(g, marks, order, path + [name]) && name in g && name !in path
    requires forall d | d in g[name] :: d in order
    ensures WalkState(g, marks[name := Done], order + [name], path)
  {
    assert name in path + [name];
    OrderGrows(g, order, name);
    forall i | 0 <= i < |path| - 1 ensures Edge(g, path[i], path[i + 1]) {
      assert Edge(g, (path + [name])[i], (path + [name])[i + 1]);
    }
  }

  /** The state that the depth-first walk updates: the marks, and the order built so far. */
  class Ordering {
    const graph: Graph
    var marks: map<string, Mark>
    var order: seq<string>

    constructor (graph: Graph)
      ensures this.graph == graph && marks == map[] && order == [] && Valid([])
    {
      this.graph := graph;
      marks, order := map[], [];
    }

    ghost predicate Valid(path: seq<string>)
      reads this
    {
      WalkState(graph, marks, order, path)
    }

    method Visit(name: string, ghost path: seq<string>) returns (r: Outcome<(), RuleError>)
      requires Valid(path) && (path != [] ==> Edge(graph, path[|path| - 1], name))
      modifies this
      ensures r.Ok? ==> Valid(path) && name in order && old(order) <= order && old(marks).Keys <= marks.Keys
      ensures r.Err? ==> r.error.Circular? || r.error.MissingRule?
      ensures r.Err? && r.error.Circular? ==> !Acyclic(graph)
      ensures r.Err? && r.error.MissingRule? ==>
                r.error.name !in graph && (r.error.name == name || exists n :: Edge(graph, n, r.error.name))
      decreases graph.Keys - marks.Keys
    {
      if name in marks {
        if marks[name] == Done { return Ok(()); }
        ghost var k :| 0 <= k < |path| && path[k] == name;
        PathEndClosesCycle(graph, path, k);
        return Err(Circular(name));
      }
      if name !in graph { return Err(MissingRule(name)); }

      EnterKeepsState(graph, marks, order, path, name);
      marks := marks[name := Visiting];
      ghost var inner := path + [name];
      ghost var before := marks.Keys;
      var rest := graph[name];
      while rest != {}
        invariant rest <= graph[name]
        invariant Valid(inner) && old(order) <= order && before <= marks.Keys
        invariant forall d | d in graph[name] - rest :: d in order
      {
        var dep :| dep in rest;
        r := Visit(dep, inner);
        if r.Err? {
          if r.error.MissingRule? && r.error.name == dep {
            assert Edge(graph, name, dep);
          }
          return;
        }
        rest := rest - {dep};
      }

      LeaveKeepsState(graph, marks, order, path, name);
      marks := marks[name := Done];
      order := order + [name];
      r := Ok(());
    }
  }

  ghost predicate Complete(g: Graph) {
    forall a, b | Edge(g, a, b) :: b in g
  }

  lemma {:induction false} GraphNodes(rules: seq<Rule>, namespaces: Namespaces)
    ensures forall n :: n in GraphOf(rules, namespaces) <==> exists r | r in rules :: r.name == n
  {
    if rules != [] {
      var init, last := rules[..|rules| - 1], rules[|rules| - 1];
      GraphNodes(init, namespaces);
      assert rules == init + [last];
      forall n ensures n in GraphOf(rules, namespaces) <==> exists r | r in rules :: r.name == n {
        if r :| r in rules && r.name == n {
          assert r in init || r == last;
        }
        if r :| r in init && r.name == n {
          assert r in rules;
        }
      }
    }
  }

  /**
   `topologically_order_rules`: visit the rules in turn. Where every dependency is present this succeeds exactly on
   acyclic rule sets, and then lists every rule once, after all its dependencies.
   */
  method TopologicallyOrderRules(rules: seq<Rule>, namespaces: Namespaces) returns (r: Outcome<seq<string>, RuleError>)
    ensures var g := GraphOf(rules, namespaces);
            && (Complete(g) ==> (r.Ok? <==> Acyclic(g)))
            && (r.Ok? ==> DependencyFirst(g, r.value) && forall n :: n in r.value <==> n in g)
            && (r.Err? ==> r.error.Circular? || r.error.MissingRule?)
            && (r.Err? && r.error.Circular? ==> !Acyclic(g))
  {
    GraphNodes(rules, namespaces);
    var names := seq(|rules|, i requires 0 <= i < |rules| => rules[i].name);
    NamesOfRules(rules, names);
    r := OrderNames(GraphOf(rules, namespaces), names);
  }

  lemma NamesOfRules(rules: seq<Rule>, names: seq<string>)
    requires |names| == |rules| && forall i | 0 <= i < |rules| :: names[i] == rules[i].name
    ensures forall n :: n in names <==> exists r | r in rules :: r.name == n
  {
    forall r | r in rules ensures r.name in names {
      var i :| 0 <= i < |rules| && rules[i] == r;
      assert names[i] == r.name;
    }
  }

  /** Visit the names of a graph in turn. */
  method OrderNames(g: Graph, names: seq<string>) returns (r: Outcome<seq<string>, RuleError>)
    requires forall n :: n in names <==> n in g
    ensures Complete(g) ==> (r.Ok? <==> Acyclic(g))
    ensures r.Ok? ==> DependencyFirst(g, r.value) && forall n :: n in r.value <==> n in g
    ensures r.Err? ==> r.error.Circular? || r.error.MissingRule?
    ensures r.Err? && r.error.Circular? ==> !Acyclic(g)
  {
    var state := new Ordering(g);
    for i := 0 to |names|
      invariant fresh(state) && state.graph == g && state.Valid([])
      invariant forall j | 0 <= j < i :: names[j] in state.order
    {
      var visited := state.Visit(names[i], []);
      if visited.Err? { return Err(visited.error); }
    }
    assert forall n :: n in state.order ==> n in state.marks;
    OrderedIsAcyclic(g, state.order);
    r := Ok(state.order);
  }

  // ---- `RuleSet::new` ----

  ghost predicate UniqueNames(rules: seq<Rule>) {
    forall i, j | 0 <= i < j < |rules| :: rules[i].name != rules[j].name
  }

  datatype RuleSet = RuleSet(rules: seq<Rule>, namespaces: Namespaces, evalOrder: seq<string>)

  method EnsureRulesAreUnique(rules: seq<Rule>) returns (r: Outcome<(), RuleError>)
    ensures r.Ok? <==> UniqueNames(rules)
    ensures r.Err? ==> r.error.Duplicate?
  {
    var seen: set<string> := {};
    for i := 0 to |rules|
      invariant UniqueNames(rules[..i])
      invariant seen == set j | 0 <= j < i :: rules[j].name
    {
      if rules[i].name in seen { return Err(Duplicate(rules[i].name)); }
      seen := seen + {rules[i].name};
    }
    assert rules[..|rules|] == rules;
    r := Ok(());
  }

  method EnsureDependenciesAreMet(rules: seq<Rule>, namespaces: Namespaces) returns (r: Outcome<(), RuleError>)
    requires UniqueNames(rules)
    ensures r.Ok? <==> Complete(GraphOf(rules, namespaces))
    ensures r.Err? ==> r.error.MissingRule?
  {
    ghost var g := GraphOf(rules, namespaces);
    GraphNodes(rules, namespaces);
    var names := set rule | rule in rules :: rule.name;
    for i := 0 to |rules|
      invariant forall j, d | 0 <= j < i && d in Dependencies(rules[j].body, namespaces) :: d in g
    {
      GraphEdges(rules, namespaces, i);
      var rest := GetDependencies(rules[i].body, namespaces);
      while rest != {}
        invariant rest <= Dependencies(rules[i].body, namespaces)
        invariant forall d | d in Dependencies(rules[i].body, namespaces) - rest :: d in g
      {
        var dep :| dep in rest;
        if dep !in names {
          assert Edge(g, rules[i].name, dep);
          return Err(MissingRule(dep));
        }
        rest := rest - {dep};
      }
    }
    forall a, b | Edge(g, a, b) ensures b in g {
      var rule :| rule in rules && rule.name == a;
      var i :| 0 <= i < |rules| && rules[i] == rule;
      GraphEdges(rules, namespaces, i);
    }
    r := Ok(());
  }

  lemma {:induction false} GraphEdges(rules: seq<Rule>, namespaces: Namespaces, i: nat)
    requires UniqueNames(rules) && i < |rules|
    ensures rules[i].name in GraphOf(rules, namespaces)
    ensures GraphOf(rules, namespaces)[rules[i].name] == Dependencies(rules[i].body, namespaces)
  {
    if i < |rules| - 1 {
      GraphEdges(rules[..|rules| - 1], namespaces, i);
    }
  }

  /** What `RuleSet::new` accepts: some rules, uniquely named, whose dependencies are present and acyclic. */
  ghost predicate Acceptable(rules: seq<Rule>) {
    var g := GraphOf(rules, NamespaceIndex(rules));
    rules != [] && UniqueNames(rules) && Complete(g) && Acyclic(g)
  }

  method NewRuleSet(rules: seq<Rule>) returns (r: Outcome<RuleSet, RuleError>)
    ensures r.Ok? <==> Acceptable(rules)
    ensures r.Ok? ==> r.value.rules == rules && r.value.namespaces == NamespaceIndex(rules)
    ensures r.Ok? ==> DependencyFirst(GraphOf(rules, NamespaceIndex(rules)), r.value.evalOrder)
    ensures r.Ok? ==> forall n :: n in r.value.evalOrder <==> exists rule | rule in rules :: rule.name == n
  {
    var unique := EnsureRulesAreUnique(rules);
    if unique.Err? { return Err(unique.error); }
    if rules == [] { return Err(NoRules); }
    var namespaces := IndexRulesByNamespace(rules);
    var met := EnsureDependenciesAreMet(rules, namespaces);
    if met.Err? { return Err(met.error); }
    var order := TopologicallyOrderRules(rules, namespaces);
    if order.Err? { return Err(order.error); }
    GraphNodes(rules, namespaces);
    r := Ok(RuleSet(rules, namespaces, order.value));
  }

  // ---- dependency closure ----

  ghost predicate ClosedUnder(g: Graph, names: set<string>) {
    forall a, b | a in names && Edge(g, a, b) :: b in names
  }

  /** Every name outside `open` has all its dependencies in the set. */
  ghost predicate ClosedExcept(g: Graph, names: set<string>, open: set<string>) {
    forall a, b | a in names && a !in open && Edge(g, a, b) :: b in names
  }

  /** All the names a graph mentions. */
  ghost function Mentioned(g: Graph): set<string> {
    g.Keys + set a, b | a in g && b in g[a] :: b
  }

  /** `result` is the least dependency-closed set that contains `names`. */
  ghost predicate IsClosure(g: Graph, names: set<string>, result: set<string>) {
    && names <= result
    && ClosedUnder(g, result)
    && forall c | names <= c && ClosedUnder(g, c) :: result <= c
  }

  /**
   Add `name` and everything it depends on, directly or not. `open` lists the names whose dependencies are still being
   added further out; the walk stops at names it has met before.
   */
  method CollectClosure(g: Graph, name: string, out: set<string>, ghost open: set<string>, ghost universe: set<string>)
    returns (r: set<string>)
    requires ClosedExcept(g, out, open) && ClosedUnder(g, universe) && out <= universe && name in universe
    ensures out <= r <= universe && name in r && ClosedExcept(g, r, open)
    ensures forall c | out <= c && name in c && ClosedUnder(g, c) :: r <= c
    decreases universe - out
  {
    if name in out { return out; }
    r := out + {name};
    if name !in g { return; }
    var rest := g[name];
    ghost var inner := open + {name};
    while rest != {}
      invariant rest <= g[name]
      invariant out + {name} <= r <= universe
      invariant ClosedExcept(g, r, inner)
      invariant forall d | d in g[name] - rest :: d in r
      invariant forall c | out <= c && name in c && ClosedUnder(g, c) :: r <= c
    {
      var dep :| dep in rest;
      assert Edge(g, name, dep);
      ghost var before := r;
      r := CollectClosure(g, dep, r, inner, universe);
      forall c | out <= c && name in c && ClosedUnder(g, c) ensures r <= c {
        assert before <= c;
      }
      rest := rest - {dep};
    }
  }

  // ---- topological ordering without cycle detection ----

  /** The walk of `topo_sort_subset`: what was met, and the order built so far. */
  class SubsetOrdering {
    const graph: Graph
    var seen: set<string>
    var order: seq<string>

    constructor (graph: Graph)
      ensures this.graph == graph && seen == {} && order == [] && Valid([])
    {
      this.graph := graph;
      seen, order := {}, [];
    }

    ghost predicate Valid(path: seq<string>)
      reads this
    {
      && IsPath(graph, path) && Distinct(order)
      && (forall n :: n in seen <==> n in path || n in order)
      && (forall n :: n in path ==> n !in order)
      && (Acyclic(graph) ==> DependenciesBefore(graph, order))
    }

    method Visit(name: string, ghost path: seq<string>, ghost universe: set<string>)
      requires Valid(path) && (path != [] ==> Edge(graph, path[|path| - 1], name))
      requires ClosedUnder(graph, universe) && seen <= universe && name in universe
      modifies this
      ensures Valid(path) && name in seen && old(order) <= order && old(seen) <= seen <= universe
      decreases universe - seen
    {
      if name in seen { return; }
      seen := seen + {name};
      PathExtends(graph, path, name);
      ghost var inner, before := path + [name], seen;
      if name in graph {
        var rest := graph[name];
        while rest != {}
          invariant rest <= graph[name]
          invariant Valid(inner) && old(order) <= order && before <= seen <= universe
          invariant forall d | d in graph[name] - rest :: d in seen
        {
          var dep :| dep in rest;
          assert Edge(graph, name, dep);
          Visit(dep, inner, universe);
          rest := rest - {dep};
        }
      }
      assert name in inner;
      DependenciesAreListed(inner);
      DistinctAppend(order, name);
      if Acyclic(graph) {
        DependenciesBeforeAppend(graph, order, name);
      }
      order := order + [name];
    }

    /** Without cycles, whatever the last name on the path depends on is listed once it has been met. */
    lemma DependenciesAreListed(path: seq<string>)
      requires Valid(path) && path != []
      requires forall d | Edge(graph, path[|path| - 1], d) :: d in seen
      ensures Acyclic(graph) ==> forall d | Edge(graph, path[|path| - 1], d) :: d in order
    {
      if Acyclic(graph) {
        forall d | Edge(graph, path[|path| - 1], d) ensures d in order {
          if k :| 0 <= k < |path| && path[k] == d {
            PathEndClosesCycle(graph, path, k);
            assert false;
          }
        }
      }
    }
  }

  /** `topo_sort_subset`: the unguarded walk lists a closed set once each; on an acyclic graph, dependencies first. */
  method TopoSortSubset(names: set<string>, g: Graph) returns (order: seq<string>)
    requires ClosedUnder(g, names)
    ensures Distinct(order) && forall n :: n in order <==> n in names
    ensures Acyclic(g) ==> DependencyFirst(g, order)
  {
    var state := new SubsetOrdering(g);
    var rest := names;
    while rest != {}
      invariant rest <= names && fresh(state) && state.graph == g
      invariant state.Valid([]) && state.seen <= names
      invariant names - rest <= state.seen
    {
      var name :| name in rest;
      state.Visit(name, [], names);
      rest := rest - {name};
    }
    assert forall n :: n in state.order <==> n in state.seen;
    order := state.order;
  }
}
