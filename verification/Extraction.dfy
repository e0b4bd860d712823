/**
 capa-x/src/capabilities/ruleset.rs: lifting nested subscopes out of rule bodies into rules of their own.
 */
module Extraction {
  import opened Base
  import opened Features
  import opened Rules
  import opened Optimizer

  /** A lifted subscope: the name of the rule it becomes, its scope and its body. */
  datatype Lifted = Lifted(name: string, scope: Scope, body: Node)

  function Digit(d: nat): char
    requires d < 10
  {
    "0123456789"[d]
  }

  function Decimal(n: nat): string {
    if n < 10 then [Digit(n)] else Decimal(n / 10) + [Digit(n % 10)]
  }

  /** The name of the `n`-th subscope lifted from a rule. */
  function SubscopeName(rule: string, n: nat): string {
    rule + "/" + Decimal(n)
  }

  // ---- the rewriting, as functions of the tree, the rule's name and the counter ----

  /** What replaces a child when `k` subscopes were lifted before it: a subscope becomes a `match:` leaf. */
  function Rewrite(node: Node, rule: string, k: nat): Node
    decreases node
  {
    match node.stmt
    case Subscope(_, _) => Node(Leaf(MatchedRule(SubscopeName(rule, k + 1))), None)
    case And(children) => Node(And(RewriteList(children, rule, k)), node.description)
    case Or(children) => Node(Or(RewriteList(children, rule, k)), node.description)
    case SomeOf(count, children) => Node(SomeOf(count, RewriteList(children, rule, k)), node.description)
    case Not(child) => Node(Not(Rewrite(child, rule, k)), node.description)
    case Range(_, _, _) => node
    case Leaf(_) => node
  }

  function RewriteList(children: seq<Node>, rule: string, k: nat): seq<Node>
    decreases children
  {
    if children == [] then []
    else [Rewrite(children[0], rule, k)] + RewriteList(children[1..], rule, k + |Lift(children[0], rule, k)|)
  }

  /** The subscopes lifted out of a child, outermost only, in the order they are met. */
  function Lift(node: Node, rule: string, k: nat): seq<Lifted>
    decreases node
  {
    match node.stmt
    case Subscope(scope, body) => [Lifted(SubscopeName(rule, k + 1), scope, body)]
    case And(children) => LiftList(children, rule, k)
    case Or(children) => LiftList(children, rule, k)
    case SomeOf(_, children) => LiftList(children, rule, k)
    case Not(child) => Lift(child, rule, k)
    case Range(_, _, _) => []
    case Leaf(_) => []
  }

  function LiftList(children: seq<Node>, rule: string, k: nat): seq<Lifted>
    decreases children
  {
    if children == [] then []
    else
      var first := Lift(children[0], rule, k);
      first + LiftList(children[1..], rule, k + |first|)
  }

  /** A root is rewritten like a child, except that a subscope at the root stays where it is. */
  function RewriteRoot(body: Node, rule: string): Node {
    if body.stmt.Subscope? then Node(Subscope(body.stmt.scope, Rewrite(body.stmt.body, rule, 0)), body.description)
    else Rewrite(body, rule, 0)
  }

  function LiftRoot(body: Node, rule: string): seq<Lifted> {
    if body.stmt.Subscope? then Lift(body.stmt.body, rule, 0) else Lift(body, rule, 0)
  }

  /** The synthetic rule that a lifted subscope becomes. */
  function SubscopeRule(l: Lifted, parent: string): Rule {
    var isDynamic := l.scope in {ProcessScope, ThreadScope, SpanOfCallsScope, CallScope};
    var scopes := if isDynamic then Scopes(None, Some(l.scope)) else Scopes(Some(l.scope), None);
    Rule(l.name, None, scopes, l.body, SubscopeMeta(l.name, parent))
  }

  function SubscopeMeta(name: string, parent: string): map<string, MetaValue> {
    map["name" := MetaString(name), "lib" := MetaBool(true), "capa/subscope-rule" := MetaBool(true),
        "capa/parent" := MetaString(parent)]
  }

  function SubscopeRules(lifted: seq<Lifted>, parent: string): seq<Rule> {
    seq(|lifted|, i requires 0 <= i < |lifted| => SubscopeRule(lifted[i], parent))
  }

  // ---- the mutable walk ----

  /** The walk over one body: it counts the subscopes it lifts and collects them. */
  class Extractor {
    const rule: string
    var counter: nat
    var extracted: seq<Lifted>

    constructor (rule: string)
      ensures this.rule == rule && counter == 0 && extracted == []
    {
      this.rule := rule;
      counter, extracted := 0, [];
    }

    method ExtractSingleChild(node: Node) returns (r: Node)
      modifies this
      ensures r == Rewrite(node, rule, old(counter))
      ensures extracted == old(extracted) + Lift(node, rule, old(counter))
      ensures counter == old(counter) + |Lift(node, rule, old(counter))|
      decreases node
    {
      match node.stmt
      case Subscope(scope, body) =>
        counter := counter + 1;
        var name := SubscopeName(rule, counter);
        extracted := extracted + [Lifted(name, scope, body)];
        return Node(Leaf(MatchedRule(name)), None);
      case And(children) =>
        var list := ExtractChildList(children);
        return Node(And(list), node.description);
      case Or(children) =>
        var list := ExtractChildList(children);
        return Node(Or(list), node.description);
      case SomeOf(count, children) =>
        var list := ExtractChildList(children);
        return Node(SomeOf(count, list), node.description);
      case Not(child) =>
        var c := ExtractSingleChild(child);
        return Node(Not(c), node.description);
      case Range(_, _, _) => return node;
      case Leaf(_) => return node;
    }

    method ExtractChildList(children: seq<Node>) returns (r: seq<Node>)
      modifies this
      ensures r == RewriteList(children, rule, old(counter))
      ensures extracted == old(extracted) + LiftList(children, rule, old(counter))
      ensures counter == old(counter) + |LiftList(children, rule, old(counter))|
      decreases children
    {
      r := [];
      for i := 0 to |children|
        invariant counter >= old(counter)
        invariant r + RewriteList(children[i..], rule, counter) == RewriteList(children, rule, old(counter))
        invariant extracted + LiftList(children[i..], rule, counter)
                  == old(extracted) + LiftList(children, rule, old(counter))
        invariant counter + |LiftList(children[i..], rule, counter)|
                  == old(counter) + |LiftList(children, rule, old(counter))|
      {
        var c := ExtractSingleChild(children[i]);
        assert children[i..][1..] == children[i + 1..];
        r := r + [c];
      }
    }

    /** `extract_children` on a rule body: a subscope at the root is not replaced, only what it holds. */
    method ExtractRoot(body: Node) returns (r: Node)
      requires counter == 0 && extracted == []
      modifies this
      ensures r == RewriteRoot(body, rule)
      ensures extracted == LiftRoot(body, rule)
    {
      if body.stmt.Subscope? {
        var inner := ExtractSingleChild(body.stmt.body);
        r := Node(Subscope(body.stmt.scope, inner), body.description);
      } else {
        r := ExtractSingleChild(body);
      }
    }
  }

  // ---- the driver over a stack of rules ----

  /** The number of subscopes in a body, at any depth. */
  function SubscopeCount(node: Node): nat
    decreases node
  {
    match node.stmt
    case Subscope(_, body) => 1 + SubscopeCount(body)
    case And(children) => ListSubscopeCount(children)
    case Or(children) => ListSubscopeCount(children)
    case SomeOf(_, children) => ListSubscopeCount(children)
    case Not(child) => SubscopeCount(child)
    case Range(_, _, _) => 0
    case Leaf(_) => 0
  }

  function ListSubscopeCount(children: seq<Node>): nat
    decreases children
  {
    if children == [] then 0 else SubscopeCount(children[0]) + ListSubscopeCount(children[1..])
  }

  /** Pending rules, each counted with the subscopes its body still holds. */
  function Pending(stack: seq<Rule>): nat {
    if stack == [] then 0 else Pending(stack[..|stack| - 1]) + 1 + SubscopeCount(stack[|stack| - 1].body)
  }

  lemma {:induction false} PendingConcat(a: seq<Rule>, b: seq<Rule>)
    ensures Pending(a + b) == Pending(a) + Pending(b)
  {
    if b == [] {
      assert a + b == a;
    } else {
      PendingConcat(a, b[..|b| - 1]);
      assert (a + b)[..|a + b| - 1] == a + b[..|b| - 1];
    }
  }

  function LiftedCount(lifted: seq<Lifted>): nat {
    if lifted == [] then 0 else 1 + SubscopeCount(lifted[0].body) + LiftedCount(lifted[1..])
  }

  lemma {:induction false} LiftedCountConcat(a: seq<Lifted>, b: seq<Lifted>)
    ensures LiftedCount(a + b) == LiftedCount(a) + LiftedCount(b)
  {
    if a == [] {
      assert a + b == b;
    } else {
      LiftedCountConcat(a[1..], b);
      assert (a + b)[1..] == a[1..] + b;
    }
  }

  /** Lifting accounts for every subscope: each becomes a rule or stays inside one that does. */
  lemma {:induction false} LiftConserves(node: Node, rule: string, k: nat)
    ensures LiftedCount(Lift(node, rule, k)) == SubscopeCount(node)
    decreases node
  {
    match node.stmt
    case Subscope(_, body) =>
      assert LiftedCount([]) == 0;
    case And(children) => LiftListConserves(children, rule, k);
    case Or(children) => LiftListConserves(children, rule, k);
    case SomeOf(_, children) => LiftListConserves(children, rule, k);
    case Not(child) => LiftConserves(child, rule, k);
    case Range(_, _, _) =>
    case Leaf(_) =>
  }

  lemma {:induction false} LiftListConserves(children: seq<Node>, rule: string, k: nat)
    ensures LiftedCount(LiftList(children, rule, k)) == ListSubscopeCount(children)
    decreases children
  {
    if children != [] {
      var first := Lift(children[0], rule, k);
      LiftConserves(children[0], rule, k);
      LiftListConserves(children[1..], rule, k + |first|);
      LiftedCountConcat(first, LiftList(children[1..], rule, k + |first|));
    }
  }

  lemma {:induction false} PendingOfLifted(lifted: seq<Lifted>, parent: string)
    ensures Pending(SubscopeRules(lifted, parent)) == LiftedCount(lifted)
  {
    if lifted != [] {
      var init, last := lifted[..|lifted| - 1], lifted[|lifted| - 1];
      PendingOfLifted(init, parent);
      assert lifted == init + [last];
      LiftedCountConcat(init, [last]);
      assert LiftedCount([last]) == 1 + SubscopeCount(last.body) + LiftedCount([]);
      assert SubscopeRules(lifted, parent)[..|lifted| - 1] == SubscopeRules(init, parent);
    }
  }

  lemma LiftRootConserves(body: Node, rule: string)
    ensures LiftedCount(LiftRoot(body, rule)) <= SubscopeCount(body)
  {
    LiftConserves(if body.stmt.Subscope? then body.stmt.body else body, rule, 0);
  }

  /** The stack after its last rule is popped and the rules lifted out of it are pushed. */
  function Popped(stack: seq<Rule>): seq<Rule>
    requires stack != []
  {
    var rule := stack[|stack| - 1];
    stack[..|stack| - 1] + SubscopeRules(LiftRoot(rule.body, rule.name), rule.name)
  }

  /** Replacing a rule by the rules lifted out of it leaves less to do. */
  lemma StackShrinks(stack: seq<Rule>)
    requires stack != []
    ensures Pending(Popped(stack)) < Pending(stack)
  {
    var rule := stack[|stack| - 1];
    var lifted := LiftRoot(rule.body, rule.name);
    PendingConcat(stack[..|stack| - 1], SubscopeRules(lifted, rule.name));
    PendingOfLifted(lifted, rule.name);
    LiftRootConserves(rule.body, rule.name);
  }

  /** A rule with its subscopes lifted out and its body optimized. */
  function Finished(rule: Rule): Rule {
    rule.(body := OptimizeNode(RewriteRoot(rule.body, rule.name)))
  }

  /** All the rules, in the order the stack yields them: original and synthetic, finished. */
  function Expand(stack: seq<Rule>): seq<Rule>
    decreases Pending(stack)
  {
    if stack == [] then []
    else
      StackShrinks(stack);
      [Finished(stack[|stack| - 1])] + Expand(Popped(stack))
  }

  lemma ExpandStep(stack: seq<Rule>)
    requires stack != []
    ensures Pending(Popped(stack)) < Pending(stack)
    ensures Expand(stack) == [Finished(stack[|stack| - 1])] + Expand(Popped(stack))
  {
    StackShrinks(stack);
  }

  lemma FinishedNext(done: seq<Rule>, rule: Rule, rest: seq<Rule>)
    ensures OptimizeAll(done + [rule.(body := RewriteRoot(rule.body, rule.name))]) + rest
            == OptimizeAll(done) + ([Finished(rule)] + rest)
  {
    var next := rule.(body := RewriteRoot(rule.body, rule.name));
    assert OptimizeAll(done + [next]) == OptimizeAll(done) + [next.(body := OptimizeNode(next.body))];
  }

  /** One walk over a rule's body: what is left of the body, and what was lifted out of it. */
  method ExtractRule(rule: Rule) returns (body: Node, lifted: seq<Lifted>)
    ensures body == RewriteRoot(rule.body, rule.name) && lifted == LiftRoot(rule.body, rule.name)
  {
    var walk := new Extractor(rule.name);
    body := walk.ExtractRoot(rule.body);
    lifted := walk.extracted;
  }

  /** `expand_and_extract`: work off a stack onto which the lifted rules are pushed, then optimize every body. */
  method ExpandAndExtract(rules: seq<Rule>) returns (done: seq<Rule>)
    ensures done == Expand(rules)
  {
    var stack := rules;
    done := [];
    assert OptimizeAll([]) == [];
    while stack != []
      invariant OptimizeAll(done) + Expand(stack) == Expand(rules)
      decreases Pending(stack)
    {
      ExpandStep(stack);
      var rule := stack[|stack| - 1];
      var body, lifted := ExtractRule(rule);
      FinishedNext(done, rule, Expand(Popped(stack)));
      stack := PushLifted(stack[..|stack| - 1], lifted, rule.name);
      done := done + [rule.(body := body)];
    }
    done := OptimizeAll(done);
  }

  method PushLifted(before: seq<Rule>, lifted: seq<Lifted>, parent: string) returns (stack: seq<Rule>)
    ensures stack == before + SubscopeRules(lifted, parent)
  {
    stack := before;
    for i := 0 to |lifted|
      invariant stack == before + SubscopeRules(lifted[..i], parent)
    {
      stack := stack + [SubscopeRule(lifted[i], parent)];
      assert SubscopeRules(lifted[..i + 1], parent)
             == SubscopeRules(lifted[..i], parent) + [SubscopeRule(lifted[i], parent)];
    }
    assert lifted[..|lifted|] == lifted;
  }

  function OptimizeAll(rules: seq<Rule>): seq<Rule> {
    seq(|rules|, i requires 0 <= i < |rules| => rules[i].(body := OptimizeNode(rules[i].body)))
  }
}
