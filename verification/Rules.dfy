/** capa-x/src/rules/mod.rs and capa-x/src/rules/scope.rs: rules, their bodies and their scopes. */
module Rules {
  import opened Base
  import opened Features

  datatype Scope =
    | FileScope
    | ProcessScope
    | ThreadScope
    | SpanOfCallsScope
    | CallScope
    | FunctionScope
    | BasicBlockScope
    | InstructionScope
    | GlobalScope

  /** The scopes that rules are matched at; nothing is matched at global scope. */
  const ALL_SCOPES: seq<Scope> :=
    [CallScope, SpanOfCallsScope, ThreadScope, ProcessScope, InstructionScope, BasicBlockScope, FunctionScope,
     FileScope]

  lemma OnlyGlobalIsNotMatched(scope: Scope)
    ensures scope in ALL_SCOPES <==> scope != GlobalScope
  {
    assert ALL_SCOPES[0] == CallScope && ALL_SCOPES[1] == SpanOfCallsScope && ALL_SCOPES[2] == ThreadScope;
    assert ALL_SCOPES[3] == ProcessScope && ALL_SCOPES[4] == InstructionScope && ALL_SCOPES[5] == BasicBlockScope;
    assert ALL_SCOPES[6] == FunctionScope && ALL_SCOPES[7] == FileScope;
  }

  datatype Scopes = Scopes(static_: Option<Scope>, dynamic: Option<Scope>) {
    predicate Contains(scope: Scope) {
      static_ == Some(scope) || dynamic == Some(scope)
    }
  }

  datatype Node = Node(stmt: Statement, description: Option<string>)

  datatype Statement =
    | And(children: seq<Node>)
    | Or(children: seq<Node>)
    | Not(child: Node)
    | SomeOf(count: nat, children: seq<Node>)
    | Range(feature: Feature, min: nat, max: Option<nat>)
    | Subscope(scope: Scope, body: Node)
    | Leaf(feature: Feature)

  /** A YAML value of a rule's `meta:` mapping, as far as the code inspects it. */
  datatype MetaValue = MetaString(s: string) | MetaBool(b: bool) | MetaSequence(items: seq<MetaValue>) | MetaOther

  datatype Rule = Rule(
    name: string,
    namespace: Option<string>,
    scopes: Scopes,
    body: Node,
    raw: map<string, MetaValue>)
  {
    predicate IsSubscopeRule() {
      "capa/subscope-rule" in raw && raw["capa/subscope-rule"] == MetaBool(true)
    }
  }

  /** The last position of a slash in `s`. */
  function LastSlash(s: string): (r: Option<nat>)
    ensures r.Some? ==> r.value < |s| && s[r.value] == '/' && '/' !in s[r.value + 1..]
    ensures r.None? ==> '/' !in s
  {
    if s == [] then None
    else if s[|s| - 1] == '/' then Some(|s| - 1)
    else LastSlash(s[..|s| - 1])
  }

  /** A namespace and each of its ancestor prefixes, longest first: "a/b/c", "a/b", "a". */
  function RuleNamespaces(namespace: string): seq<string> {
    match LastSlash(namespace)
    case Some(i) => [namespace] + RuleNamespaces(namespace[..i])
    case None => [namespace]
  }

  /** The namespace is `p`, or is below it. */
  ghost predicate IsUnder(namespace: string, p: string) {
    namespace == p || exists rest :: IsBelow(namespace, p, rest)
  }

  predicate IsBelow(namespace: string, p: string, rest: string) {
    namespace == p + "/" + rest
  }

  lemma UnderAt(namespace: string, p: string)
    ensures IsUnder(namespace, p)
            <==> namespace == p || (|p| < |namespace| && namespace[|p|] == '/' && namespace[..|p|] == p)
  {
    if |p| < |namespace| && namespace[|p|] == '/' && namespace[..|p|] == p {
      assert IsBelow(namespace, p, namespace[|p| + 1..]);
    }
  }

  /** The namespaces are those that it is under. */
  lemma {:induction false} NamespacesAreThoseAbove(namespace: string, p: string)
    ensures p in RuleNamespaces(namespace) <==> IsUnder(namespace, p)
    decreases |namespace|
  {
    UnderAt(namespace, p);
    if LastSlash(namespace).Some? {
      var i := LastSlash(namespace).value;
      NamespacesAreThoseAbove(namespace[..i], p);
      UnderAt(namespace[..i], p);
      assert forall k | i < k < |namespace| :: namespace[k] == namespace[i + 1..][k - i - 1];
    }
  }

  /** The names under which a match of `rule` is published: its own, then its namespace prefixes. */
  function PublishedNames(rule: Rule): seq<string> {
    [rule.name] + (if rule.namespace.Some? then RuleNamespaces(rule.namespace.value) else [])
  }

  /** Every node of the tree rooted at `node` satisfies `p`; subscope bodies included. */
  ghost predicate AllNodes(node: Node, p: Node -> bool)
    decreases node
  {
    && p(node)
    && match node.stmt
       case And(children) => forall c | c in children :: AllNodes(c, p)
       case Or(children) => forall c | c in children :: AllNodes(c, p)
       case SomeOf(_, children) => forall c | c in children :: AllNodes(c, p)
       case Not(child) => AllNodes(child, p)
       case Subscope(_, body) => AllNodes(body, p)
       case Range(_, _, _) => true
       case Leaf(_) => true
  }

  /** The children that a structural statement lists; empty for the others. */
  function Children(stmt: Statement): seq<Node> {
    match stmt
    case And(children) => children
    case Or(children) => children
    case SomeOf(_, children) => children
    case Not(child) => [child]
    case Subscope(_, body) => [body]
    case Range(_, _, _) => []
    case Leaf(_) => []
  }
}
