/** capa-x/src/engine.rs: evaluation of rule bodies against feature sets. */
module Engine {
  import opened Base
  import opened Features
  import opened FeatureSets
  import opened Rules

  datatype EngineError = UnextractedSubscope(scope: Scope) | UnexpandedCom(kind: ComKind)

  datatype MatchedNode =
    | AndNode
    | OrNode
    | NotNode
    | SomeNode(count: nat)
    | RangeNode(feature: Feature, min: nat, max: Option<nat>)
    | LeafNode(feature: Feature)

  datatype MatchResult = MatchResult(
    success: bool,
    node: MatchedNode,
    description: Option<string>,
    locations: set<Address>,
    children: seq<MatchResult>,
    captures: map<string, set<Address>>)

  // ---- leaves ----

  /** Whether `k`, a key of the feature set, is a string that query `q` accepts. */
  predicate StringHit(q: StringFeature, k: Feature) {
    k.String? && StringQueryMatches(q, k.str.value)
  }

  predicate BytesHit(query: seq<bv8>, k: Feature) {
    k.Bytes? && query <= k.bytes
  }

  predicate OsHit(query: string, k: Feature) {
    k.Os? && OsMatches(query, k.name)
  }

  /** The first key that `hit` accepts. */
  function FirstHit(keys: seq<Feature>, hit: Feature -> bool): (r: Option<Feature>)
    ensures r.Some? ==> r.value in keys && hit(r.value)
    ensures r.None? ==> forall k | k in keys :: !hit(k)
  {
    if keys == [] then None
    else if hit(keys[0]) then Some(keys[0])
    else FirstHit(keys[1..], hit)
  }

  function LeafResult(node: MatchedNode, success: bool, description: Option<string>, at: set<Address>): MatchResult {
    MatchResult(success, node, description, at, [], map[])
  }

  /** The result of a leaf that stops at its first hit. */
  function FirstHitResult(f: Feature, fs: FeatureSet, hit: Feature -> bool, description: Option<string>): MatchResult {
    match FirstHit(fs.keys, hit)
    case Some(k) => LeafResult(LeafNode(f), true, description, Locations(fs.locs, k))
    case None => LeafResult(LeafNode(f), false, description, {})
  }

  /** Every location of a key accepted by `q`. */
  function HitLocations(q: StringFeature, locs: map<Feature, set<Address>>): set<Address> {
    set k, a | k in locs.Keys && StringHit(q, k) && a in locs[k] :: a
  }

  function HitValues(q: StringFeature, locs: map<Feature, set<Address>>): set<string> {
    set k | k in locs.Keys && StringHit(q, k) :: k.str.value
  }

  /** The locations of the keys that carry the accepted value `v`. */
  function ValueLocations(q: StringFeature, locs: map<Feature, set<Address>>, v: string): set<Address> {
    set k, a | k in locs.Keys && StringHit(q, k) && k.str.value == v && a in locs[k] :: a
  }

  function HitCaptures(q: StringFeature, locs: map<Feature, set<Address>>): map<string, set<Address>> {
    map v | v in HitValues(q, locs) :: ValueLocations(q, locs, v)
  }

  /** A substring or regex leaf: the first hit alone, or all the hits together. */
  function StringScanResult(f: Feature, fs: FeatureSet, shortCircuit: bool, description: Option<string>): MatchResult
    requires f.String?
  {
    if shortCircuit then
      match FirstHit(fs.keys, k => StringHit(f.str, k))
      case Some(k) =>
        var at := Locations(fs.locs, k);
        MatchResult(true, LeafNode(f), description, at, [], map[k.str.value := at])
      case None => MatchResult(false, LeafNode(f), description, {}, [], map[])
    else
      MatchResult(exists k | k in fs.locs.Keys :: StringHit(f.str, k), LeafNode(f), description,
                  HitLocations(f.str, fs.locs), [], HitCaptures(f.str, fs.locs))
  }

  function EvaluateLeaf(f: Feature, fs: FeatureSet, shortCircuit: bool, description: Option<string>)
    : Outcome<MatchResult, EngineError>
  {
    if f.String? && !f.str.Plain? then
      Ok(StringScanResult(f, fs, shortCircuit, description))
    else if f.Bytes? then
      Ok(FirstHitResult(f, fs, k => BytesHit(f.bytes, k), description))
    else if f.Os? then
      Ok(FirstHitResult(f, fs, k => OsHit(f.name, k), description))
    else if f.Com? then
      Err(UnexpandedCom(f.kind))
    else
      Ok(LeafResult(LeafNode(f), f in fs.locs, description, Locations(fs.locs, f)))
  }

  predicate WithinRange(count: nat, min: nat, max: Option<nat>) {
    min <= count && (max.Some? ==> count <= max.value)
  }

  // ---- evaluation with evidence ----

  /** When a short-circuiting run over a list of children ends. */
  datatype Stop = Never | AtFailure | AtSuccess | WhenSatisfied(missing: int)

  predicate Stops(stop: Stop, success: bool) {
    match stop
    case Never => false
    case AtFailure => !success
    case AtSuccess => success
    case WhenSatisfied(missing) => missing - (if success then 1 else 0) <= 0
  }

  function Advance(stop: Stop, success: bool): Stop {
    if stop.WhenSatisfied? && success then WhenSatisfied(stop.missing - 1) else stop
  }

  function CountSuccesses(results: seq<MatchResult>): nat {
    if results == [] then 0 else (if results[0].success then 1 else 0) + CountSuccesses(results[1..])
  }

  function Evaluate(node: Node, fs: FeatureSet, shortCircuit: bool): Outcome<MatchResult, EngineError>
    decreases node
  {
    match node.stmt
    case And(children) =>
      var results :- EvaluateChildren(children, fs, shortCircuit, if shortCircuit then AtFailure else Never);
      Ok(MatchResult(forall r | r in results :: r.success, AndNode, node.description, {}, results, map[]))
    case Or(children) =>
      var results :- EvaluateChildren(children, fs, shortCircuit, if shortCircuit then AtSuccess else Never);
      Ok(MatchResult(exists r | r in results :: r.success, OrNode, node.description, {}, results, map[]))
    case Not(child) =>
      var r :- Evaluate(child, fs, shortCircuit);
      Ok(MatchResult(!r.success, NotNode, node.description, {}, [r], map[]))
    case SomeOf(count, children) =>
      var results :- EvaluateChildren(children, fs, shortCircuit, if shortCircuit then WhenSatisfied(count) else Never);
      // the short-circuiting loop only compares counts after a child, so it never accepts an empty list
      Ok(MatchResult(CountSuccesses(results) >= count && (shortCircuit ==> results != []),
                     SomeNode(count), node.description, {}, results, map[]))
    case Range(f, min, max) =>
      var at := Locations(fs.locs, f);
      Ok(LeafResult(RangeNode(f, min, max), WithinRange(|at|, min, max), node.description, at))
    case Subscope(scope, _) => Err(UnextractedSubscope(scope))
    case Leaf(f) => EvaluateLeaf(f, fs, shortCircuit, node.description)
  }

  function EvaluateChildren(children: seq<Node>, fs: FeatureSet, shortCircuit: bool, stop: Stop)
    : Outcome<seq<MatchResult>, EngineError>
    decreases children
  {
    if children == [] then Ok([])
    else
      var r :- Evaluate(children[0], fs, shortCircuit);
      if Stops(stop, r.success) then Ok([r])
      else
        var rest :- EvaluateChildren(children[1..], fs, shortCircuit, Advance(stop, r.success));
        Ok([r] + rest)
  }

  // ---- the boolean pass ----

  function LeafBoolean(f: Feature, locs: map<Feature, set<Address>>): bool {
    if f.String? && !f.str.Plain? then exists k | k in locs.Keys :: StringHit(f.str, k)
    else if f.Bytes? then exists k | k in locs.Keys :: BytesHit(f.bytes, k)
    else if f.Os? then exists k | k in locs.Keys :: OsHit(f.name, k)
    else f in locs
  }

  function EvaluateBoolean(node: Node, locs: map<Feature, set<Address>>): Outcome<bool, EngineError>
    decreases node
  {
    match node.stmt
    case And(children) => AllTrue(children, locs)
    case Or(children) => AnyTrue(children, locs)
    case Not(child) =>
      var b :- EvaluateBoolean(child, locs);
      Ok(!b)
    case SomeOf(count, children) => Satisfied(children, locs, 0, count)
    case Range(f, min, max) => Ok(WithinRange(|Locations(locs, f)|, min, max))
    case Subscope(scope, _) => Err(UnextractedSubscope(scope))
    case Leaf(f) => if f.Com? then Err(UnexpandedCom(f.kind)) else Ok(LeafBoolean(f, locs))
  }

  function AllTrue(children: seq<Node>, locs: map<Feature, set<Address>>): Outcome<bool, EngineError>
    decreases children
  {
    if children == [] then Ok(true)
    else
      var b :- EvaluateBoolean(children[0], locs);
      if !b then Ok(false) else AllTrue(children[1..], locs)
  }

  function AnyTrue(children: seq<Node>, locs: map<Feature, set<Address>>): Outcome<bool, EngineError>
    decreases children
  {
    if children == [] then Ok(false)
    else
      var b :- EvaluateBoolean(children[0], locs);
      if b then Ok(true) else AnyTrue(children[1..], locs)
  }

  function Satisfied(children: seq<Node>, locs: map<Feature, set<Address>>, satisfied: nat, count: nat)
    : Outcome<bool, EngineError>
    decreases children
  {
    if children == [] then Ok(false)
    else
      var b :- EvaluateBoolean(children[0], locs);
      var now := satisfied + (if b then 1 else 0);
      if now >= count then Ok(true) else Satisfied(children[1..], locs, now, count)
  }

  // ---- an independent reading of a body: which bodies hold of a feature set ----

  /** Free of the leaves and statements that evaluation rejects. */
  predicate NodeIsEvaluable(n: Node) {
    !n.stmt.Subscope? && !(n.stmt.Leaf? && n.stmt.feature.Com?)
  }

  ghost predicate Evaluable(node: Node) {
    AllNodes(node, NodeIsEvaluable)
  }

  predicate NodeIsNotEmptySome(n: Node) {
    n.stmt.SomeOf? ==> n.stmt.count > 0 || n.stmt.children != []
  }

  /** Nowhere an `optional:` without alternatives, on which the two passes disagree. */
  ghost predicate NoEmptySome(node: Node) {
    AllNodes(node, NodeIsNotEmptySome)
  }

  /** The meaning of a body, with neither evaluation order nor errors. */
  ghost predicate Holds(node: Node, locs: map<Feature, set<Address>>)
    decreases node
  {
    match node.stmt
    case And(children) => forall c | c in children :: Holds(c, locs)
    case Or(children) => exists c | c in children :: Holds(c, locs)
    case Not(child) => !Holds(child, locs)
    case SomeOf(count, children) => children != [] && CountHolding(children, locs) >= count
    case Range(f, min, max) => WithinRange(|Locations(locs, f)|, min, max)
    case Subscope(_, _) => false
    case Leaf(f) => LeafBoolean(f, locs)
  }

  ghost function CountHolding(children: seq<Node>, locs: map<Feature, set<Address>>): nat
    decreases children
  {
    if children == [] then 0
    else (if Holds(children[0], locs) then 1 else 0) + CountHolding(children[1..], locs)
  }

  lemma {:induction false} BooleanMeansHolds(node: Node, locs: map<Feature, set<Address>>)
    requires Evaluable(node)
    ensures EvaluateBoolean(node, locs) == Ok(Holds(node, locs))
    decreases node
  {
    match node.stmt
    case And(children) => ListsMeanHolds(children, locs, 0, 0);
    case Or(children) => ListsMeanHolds(children, locs, 0, 0);
    case Not(child) => BooleanMeansHolds(child, locs);
    case SomeOf(count, children) => ListsMeanHolds(children, locs, 0, count);
    case Range(_, _, _) =>
    case Leaf(_) =>
  }

  lemma {:induction false} ListsMeanHolds(children: seq<Node>, locs: map<Feature, set<Address>>, satisfied: nat,
                                          count: nat)
    requires forall c | c in children :: Evaluable(c)
    ensures AllTrue(children, locs) == Ok(forall c | c in children :: Holds(c, locs))
    ensures AnyTrue(children, locs) == Ok(exists c | c in children :: Holds(c, locs))
    ensures Satisfied(children, locs, satisfied, count)
            == Ok(children != [] && satisfied + CountHolding(children, locs) >= count)
    decreases children
  {
    if children != [] {
      BooleanMeansHolds(children[0], locs);
      var now := satisfied + (if Holds(children[0], locs) then 1 else 0);
      ListsMeanHolds(children[1..], locs, now, count);
      assert forall c :: c in children <==> c == children[0] || c in children[1..];
    }
  }

  // ---- the two passes ----

  function Success(r: Outcome<MatchResult, EngineError>): Outcome<bool, EngineError> {
    match r
    case Ok(m) => Ok(m.success)
    case Err(e) => Err(e)
  }

  /** `evaluate_boolean` is the outcome of the short-circuiting evaluator, errors included, on every tree. */
  lemma {:induction false} BooleanIsShortCircuit(node: Node, fs: FeatureSet)
    ensures EvaluateBoolean(node, fs.locs) == Success(Evaluate(node, fs, true))
    decreases node
  {
    match node.stmt
    case And(children) => AllTrueIsShortCircuit(children, fs);
    case Or(children) => AnyTrueIsShortCircuit(children, fs);
    case Not(child) => BooleanIsShortCircuit(child, fs);
    case SomeOf(count, children) => SatisfiedIsShortCircuit(children, fs, 0, count);
    case Range(_, _, _) =>
    case Subscope(_, _) =>
    case Leaf(f) => if !f.Com? { LeafMeansHolds(node, fs, true); }
  }

  lemma {:induction false} AllTrueIsShortCircuit(children: seq<Node>, fs: FeatureSet)
    ensures var run := EvaluateChildren(children, fs, true, AtFailure);
            AllTrue(children, fs.locs) == if run.Ok? then Ok(forall r | r in run.value :: r.success) else Err(run.error)
    decreases children
  {
    if children != [] {
      BooleanIsShortCircuit(children[0], fs);
      AllTrueIsShortCircuit(children[1..], fs);
      var first := Evaluate(children[0], fs, true);
      var rest := EvaluateChildren(children[1..], fs, true, AtFailure);
      if first.Ok? && first.value.success && rest.Ok? {
        assert forall r :: r in [first.value] + rest.value <==> r == first.value || r in rest.value;
      }
    }
  }

  lemma {:induction false} AnyTrueIsShortCircuit(children: seq<Node>, fs: FeatureSet)
    ensures var run := EvaluateChildren(children, fs, true, AtSuccess);
            AnyTrue(children, fs.locs) == if run.Ok? then Ok(exists r | r in run.value :: r.success) else Err(run.error)
    decreases children
  {
    if children != [] {
      BooleanIsShortCircuit(children[0], fs);
      AnyTrueIsShortCircuit(children[1..], fs);
      var first := Evaluate(children[0], fs, true);
      var rest := EvaluateChildren(children[1..], fs, true, AtSuccess);
      if first.Ok? && !first.value.success && rest.Ok? {
        assert forall r :: r in [first.value] + rest.value <==> r == first.value || r in rest.value;
      }
    }
  }

  lemma {:induction false} SatisfiedIsShortCircuit(children: seq<Node>, fs: FeatureSet, satisfied: nat, count: nat)
    ensures var run := EvaluateChildren(children, fs, true, WhenSatisfied(count - satisfied));
            Satisfied(children, fs.locs, satisfied, count)
            == if run.Ok? then Ok(run.value != [] && satisfied + CountSuccesses(run.value) >= count) else Err(run.error)
    decreases children
  {
    if children != [] {
      BooleanIsShortCircuit(children[0], fs);
      var first := Evaluate(children[0], fs, true);
      if first.Ok? {
        var now := satisfied + (if first.value.success then 1 else 0);
        SatisfiedIsShortCircuit(children[1..], fs, now, count);
      }
    }
  }

  /** Full evaluation of an evaluable tree succeeds exactly when its meaning holds, empty `optional:` aside. */
  lemma {:induction false} FullMeansHolds(node: Node, fs: FeatureSet)
    requires Evaluable(node) && NoEmptySome(node)
    ensures Success(Evaluate(node, fs, false)) == Ok(Holds(node, fs.locs))
    decreases node
  {
    match node.stmt
    case And(children) => FullChildrenHold(children, fs);
    case Or(children) => FullChildrenHold(children, fs);
    case Not(child) => FullMeansHolds(child, fs);
    case SomeOf(count, children) => FullChildrenHold(children, fs);
    case Range(_, _, _) =>
    case Leaf(_) => LeafMeansHolds(node, fs, false);
  }

  lemma LeafMeansHolds(node: Node, fs: FeatureSet, shortCircuit: bool)
    requires node.stmt.Leaf? && !node.stmt.feature.Com?
    ensures Success(Evaluate(node, fs, shortCircuit)) == Ok(LeafBoolean(node.stmt.feature, fs.locs))
  {
    KeySetMeans(fs.keys);
  }

  lemma {:induction false} FullChildrenHold(children: seq<Node>, fs: FeatureSet)
    requires forall c | c in children :: Evaluable(c) && NoEmptySome(c)
    ensures var run := EvaluateChildren(children, fs, false, Never);
            && run.Ok? && |run.value| == |children|
            && (forall i | 0 <= i < |children| :: run.value[i].success == Holds(children[i], fs.locs))
            && CountSuccesses(run.value) == CountHolding(children, fs.locs)
    decreases children
  {
    if children != [] {
      FullMeansHolds(children[0], fs);
      FullChildrenHold(children[1..], fs);
      var first, rest := Evaluate(children[0], fs, false), EvaluateChildren(children[1..], fs, false, Never);
      assert EvaluateChildren(children, fs, false, Never) == Ok([first.value] + rest.value);
      assert ([first.value] + rest.value)[1..] == rest.value;
    }
  }

  lemma {:induction false} EvaluableSucceeds(node: Node, fs: FeatureSet, shortCircuit: bool)
    requires Evaluable(node)
    ensures Evaluate(node, fs, shortCircuit).Ok?
    decreases node
  {
    match node.stmt
    case And(children) =>
      EvaluableChildrenSucceed(children, fs, shortCircuit, if shortCircuit then AtFailure else Never);
    case Or(children) =>
      EvaluableChildrenSucceed(children, fs, shortCircuit, if shortCircuit then AtSuccess else Never);
    case SomeOf(count, children) =>
      EvaluableChildrenSucceed(children, fs, shortCircuit, if shortCircuit then WhenSatisfied(count) else Never);
    case Not(child) => EvaluableSucceeds(child, fs, shortCircuit);
    case Range(_, _, _) =>
    case Leaf(_) =>
  }

  lemma {:induction false} EvaluableChildrenSucceed(children: seq<Node>, fs: FeatureSet, shortCircuit: bool, stop: Stop)
    requires forall c | c in children :: Evaluable(c)
    ensures EvaluateChildren(children, fs, shortCircuit, stop).Ok?
    decreases children
  {
    if children != [] {
      EvaluableSucceeds(children[0], fs, shortCircuit);
      var first := Evaluate(children[0], fs, shortCircuit).value;
      EvaluableChildrenSucceed(children[1..], fs, shortCircuit, Advance(stop, first.success));
    }
  }

  /** The matcher's assertion: a rule that passes the boolean pass also passes the evidence pass. */
  lemma TwoPassesAgree(node: Node, fs: FeatureSet)
    requires Evaluable(node) && NoEmptySome(node)
    ensures EvaluateBoolean(node, fs.locs) == Success(Evaluate(node, fs, false))
  {
    BooleanMeansHolds(node, fs.locs);
    FullMeansHolds(node, fs);
  }

  /** At one `N or more` whose alternatives agree, the passes agree exactly when it is not empty with a count of 0. */
  lemma SomePassesAgreeIff(node: Node, fs: FeatureSet)
    requires node.stmt.SomeOf?
    requires forall c | c in node.stmt.children :: Evaluable(c) && NoEmptySome(c)
    ensures EvaluateBoolean(node, fs.locs) == Success(Evaluate(node, fs, false))
            <==> node.stmt.count > 0 || node.stmt.children != []
  {
    ListsMeanHolds(node.stmt.children, fs.locs, 0, node.stmt.count);
    FullChildrenHold(node.stmt.children, fs);
  }

  ghost predicate PassesAgree(node: Node, fs: FeatureSet) {
    EvaluateBoolean(node, fs.locs) == Success(Evaluate(node, fs, false))
  }

  /** The passes agree at the node and everywhere below it. */
  ghost predicate PassesAgreeThroughout(node: Node, fs: FeatureSet) {
    AllNodes(node, n => PassesAgree(n, fs))
  }

  /** On a whole tree, the passes agree throughout exactly when it has no empty `optional:`, whatever the features. */
  lemma {:induction false} PassesAgreeIff(node: Node, fs: FeatureSet)
    requires Evaluable(node)
    ensures PassesAgreeThroughout(node, fs) <==> NoEmptySome(node)
    decreases node
  {
    if NoEmptySome(node) {
      TwoPassesAgree(node, fs);
    }
    if node.stmt.SomeOf? && node.stmt.children == [] {
      SomePassesAgreeIff(node, fs);
    }
    match node.stmt
    case And(children) => ListPassesAgreeIff(children, fs);
    case Or(children) => ListPassesAgreeIff(children, fs);
    case SomeOf(_, children) => ListPassesAgreeIff(children, fs);
    case Not(child) => PassesAgreeIff(child, fs);
    case Range(_, _, _) =>
    case Leaf(_) =>
  }

  lemma {:induction false} ListPassesAgreeIff(children: seq<Node>, fs: FeatureSet)
    requires forall c | c in children :: Evaluable(c)
    ensures forall c | c in children :: PassesAgreeThroughout(c, fs) <==> NoEmptySome(c)
    decreases children
  {
    if children != [] {
      PassesAgreeIff(children[0], fs);
      ListPassesAgreeIff(children[1..], fs);
    }
  }

  // ---- the matcher's assertion ----

  /** Every empty `optional:` lies below an even number of negations, or with `even` false below an odd number. */
  ghost predicate EmptySomesUnder(node: Node, even: bool)
    decreases node
  {
    match node.stmt
    case And(children) => forall c | c in children :: EmptySomesUnder(c, even)
    case Or(children) => forall c | c in children :: EmptySomesUnder(c, even)
    case SomeOf(_, children) =>
      (NodeIsNotEmptySome(node) || even) && forall c | c in children :: EmptySomesUnder(c, even)
    case Not(child) => EmptySomesUnder(child, !even)
    case Subscope(_, body) => EmptySomesUnder(body, even)
    case Range(_, _, _) => true
    case Leaf(_) => true
  }

  /** A tree with no empty `optional:` at all is a special case. */
  lemma {:induction false} NoEmptySomeIsUnder(node: Node, even: bool)
    requires NoEmptySome(node)
    ensures EmptySomesUnder(node, even)
    decreases node
  {
    match node.stmt
    case And(children) => forall c | c in children ensures EmptySomesUnder(c, even) { NoEmptySomeIsUnder(c, even); }
    case Or(children) => forall c | c in children ensures EmptySomesUnder(c, even) { NoEmptySomeIsUnder(c, even); }
    case SomeOf(_, children) =>
      forall c | c in children ensures EmptySomesUnder(c, even) { NoEmptySomeIsUnder(c, even); }
    case Not(child) => NoEmptySomeIsUnder(child, !even);
    case Subscope(_, body) => NoEmptySomeIsUnder(body, even);
    case Range(_, _, _) =>
    case Leaf(_) =>
  }

  /** The one pass implies the other: with `even` the first implies the second. */
  predicate Implies(even: bool, first: bool, second: bool) {
    if even then first ==> second else second ==> first
  }

  /** Below an even number of negations an empty `optional:` can only make the evidence pass succeed more often. */
  lemma {:induction false} PassesImply(node: Node, fs: FeatureSet, even: bool)
    requires Evaluable(node) && EmptySomesUnder(node, even)
    ensures Evaluate(node, fs, false).Ok?
    ensures Implies(even, Holds(node, fs.locs), Evaluate(node, fs, false).value.success)
    decreases node
  {
    match node.stmt
    case And(children) => ListPassesImply(children, fs, even);
    case Or(children) => ListPassesImply(children, fs, even);
    case SomeOf(_, children) => ListPassesImply(children, fs, even);
    case Not(child) => PassesImply(child, fs, !even);
    case Range(_, _, _) =>
    case Leaf(_) => LeafMeansHolds(node, fs, false);
  }

  lemma {:induction false} ListPassesImply(children: seq<Node>, fs: FeatureSet, even: bool)
    requires forall c | c in children :: Evaluable(c) && EmptySomesUnder(c, even)
    ensures var run := EvaluateChildren(children, fs, false, Never);
            && run.Ok? && |run.value| == |children|
            && (forall i | 0 <= i < |children| :: Implies(even, Holds(children[i], fs.locs), run.value[i].success))
            && (if even then CountHolding(children, fs.locs) <= CountSuccesses(run.value)
                else CountSuccesses(run.value) <= CountHolding(children, fs.locs))
    decreases children
  {
    if children != [] {
      PassesImply(children[0], fs, even);
      ListPassesImply(children[1..], fs, even);
    }
  }

  /**
   The matcher's assertion holds more widely than the passes agree: what passes the boolean pass also passes the
   evidence pass whenever each empty `optional:` lies below an even number of negations.
   */
  lemma AssertionHolds(node: Node, fs: FeatureSet)
    requires Evaluable(node) && EmptySomesUnder(node, true)
    ensures EvaluateBoolean(node, fs.locs) == Ok(true) ==> Success(Evaluate(node, fs, false)) == Ok(true)
  {
    BooleanMeansHolds(node, fs.locs);
    PassesImply(node, fs, true);
  }

  /** Why the condition is needed: the negation of an empty `optional:` passes the first pass and fails the second. */
  lemma EmptySomeBreaksTheAssertion()
    ensures var node := Node(Not(Node(SomeOf(0, []), None)), None);
            && Evaluable(node)
            && EvaluateBoolean(node, map[]) == Ok(true)
            && Success(Evaluate(node, EMPTY, false)) == Ok(false)
  {
    var inner := Node(SomeOf(0, []), None);
    assert EvaluateBoolean(inner, map[]) == Ok(false);
    assert EvaluateChildren([], EMPTY, false, Never) == Ok([]);
  }

  // ---- evidence does not depend on where other keys sit ----

  lemma FilterCons(k: Feature, rest: seq<Feature>, p: Feature -> bool)
    ensures Filter([k] + rest, p) == (if p(k) then [k] + Filter(rest, p) else Filter(rest, p))
  {
    FilterConcat([k], rest, p);
    FilterAppend([], k, p);
    assert [] + [k] == [k];
  }

  lemma {:induction false} FirstHitOfFilter(keys: seq<Feature>, hit: Feature -> bool, p: Feature -> bool)
    requires forall k | k in keys && hit(k) :: p(k)
    ensures FirstHit(keys, hit) == FirstHit(Filter(keys, p), hit)
  {
    if keys != [] {
      var k, rest := keys[0], keys[1..];
      FirstHitOfFilter(rest, hit, p);
      FilterCons(k, rest, p);
      assert keys == [k] + rest;
      if p(k) {
        assert ([k] + Filter(rest, p))[1..] == Filter(rest, p);
      }
    }
  }

  /** A leaf that stops at its first hit sees only the keys of its own kind. */
  lemma FirstHitIsOrderIndependent(f: Feature, a: FeatureSet, b: FeatureSet, hit: Feature -> bool, p: Feature -> bool,
                                   description: Option<string>)
    requires Filter(a.keys, p) == Filter(b.keys, p)
    requires forall k | hit(k) :: p(k) && Locations(a.locs, k) == Locations(b.locs, k)
    ensures FirstHitResult(f, a, hit, description) == FirstHitResult(f, b, hit, description)
  {
    FirstHitOfFilter(a.keys, hit, p);
    FirstHitOfFilter(b.keys, hit, p);
  }

  /** Feature sets that differ only in where keys other than `Bytes` and `Os` sit yield the same evidence tree. */
  lemma {:induction false} EvidenceIsOrderIndependent(node: Node, a: FeatureSet, b: FeatureSet)
    requires Equivalent(a, b)
    ensures Evaluate(node, a, false) == Evaluate(node, b, false)
    decreases node
  {
    match node.stmt
    case And(children) => ChildrenAreOrderIndependent(children, a, b);
    case Or(children) => ChildrenAreOrderIndependent(children, a, b);
    case Not(child) => EvidenceIsOrderIndependent(child, a, b);
    case SomeOf(_, children) => ChildrenAreOrderIndependent(children, a, b);
    case Range(_, _, _) =>
    case Subscope(_, _) =>
    case Leaf(f) =>
      if f.Bytes? {
        FirstHitIsOrderIndependent(f, a, b, k => BytesHit(f.bytes, k), IsBytes, node.description);
      } else if f.Os? {
        FirstHitIsOrderIndependent(f, a, b, k => OsHit(f.name, k), IsOs, node.description);
      }
  }

  lemma {:induction false} ChildrenAreOrderIndependent(children: seq<Node>, a: FeatureSet, b: FeatureSet)
    requires Equivalent(a, b)
    ensures EvaluateChildren(children, a, false, Never) == EvaluateChildren(children, b, false, Never)
    decreases children
  {
    if children != [] {
      EvidenceIsOrderIndependent(children[0], a, b);
      ChildrenAreOrderIndependent(children[1..], a, b);
    }
  }

  // ---- publishing a match ----

  /** For each rule, the matches recorded for it, in the order they were found. */
  type MatchResults = map<string, seq<(Address, MatchResult)>>

  function Recorded(results: MatchResults, name: string): seq<(Address, MatchResult)> {
    if name in results then results[name] else []
  }

  function Record(results: MatchResults, name: string, at: Address, m: MatchResult): MatchResults {
    results[name := Recorded(results, name) + [(at, m)]]
  }

  function PublishNames(fs: FeatureSet, names: seq<string>, at: set<Address>): FeatureSet {
    if names == [] then fs
    else InsertMany(PublishNames(fs, names[..|names| - 1], at), MatchedRule(names[|names| - 1]), at)
  }

  /** Publish a match of `rule` under its name and its namespace prefixes. */
  function IndexRuleMatches(fs: FeatureSet, rule: Rule, at: set<Address>): FeatureSet {
    PublishNames(fs, PublishedNames(rule), at)
  }

  /** Publishing adds locations to exactly the named `match` features. */
  lemma {:induction false} PublishNamesContents(fs: FeatureSet, names: seq<string>, at: set<Address>, f: Feature)
    ensures f in PublishNames(fs, names, at).locs <==> f in fs.locs || (f.MatchedRule? && f.name in names)
    ensures Locations(PublishNames(fs, names, at).locs, f)
            == Locations(fs.locs, f) + (if f.MatchedRule? && f.name in names then at else {})
  {
    if names != [] {
      var init, last := names[..|names| - 1], names[|names| - 1];
      PublishNamesContents(fs, init, at, f);
      InsertContents(PublishNames(fs, init, at), MatchedRule(last), at, f);
      assert f.MatchedRule? ==> (f.name in names <==> f.name in init || f.name == last) by {
        assert names == init + [last];
      }
    }
  }

  /** Publishing appends only `match` keys that were not there. */
  lemma {:induction false} PublishNamesKeys(fs: FeatureSet, names: seq<string>, at: set<Address>)
    ensures var after := PublishNames(fs, names, at).keys;
            && fs.keys <= after
            && (forall k | k in after[|fs.keys|..] :: k.MatchedRule? && k.name in names)
  {
    if names == [] {
      assert fs.keys[|fs.keys|..] == [];
    } else {
      var init, last := names[..|names| - 1], names[|names| - 1];
      PublishNamesKeys(fs, init, at);
      var before, after := PublishNames(fs, init, at).keys, PublishNames(fs, names, at).keys;
      assert forall n :: n in init ==> n in names;
      if after != before {
        assert after == before + [MatchedRule(last)];
        assert after[|fs.keys|..] == before[|fs.keys|..] + [MatchedRule(last)];
      }
    }
  }

  lemma {:induction false} PublishEquivalent(a: FeatureSet, b: FeatureSet, names: seq<string>, at: set<Address>)
    requires Equivalent(a, b)
    ensures Equivalent(PublishNames(a, names, at), PublishNames(b, names, at))
  {
    if names != [] {
      var init, last := names[..|names| - 1], names[|names| - 1];
      PublishEquivalent(a, b, init, at);
      InsertEquivalent(PublishNames(a, init, at), PublishNames(b, init, at), MatchedRule(last), at);
    }
  }

  lemma PublishStep(fs: FeatureSet, names: seq<string>, i: nat, at: set<Address>)
    requires i < |names|
    ensures PublishNames(fs, names[..i + 1], at)
            == InsertMany(PublishNames(fs, names[..i], at), MatchedRule(names[i]), at)
  {
    assert names[..i + 1][..i] == names[..i];
  }

  method PublishMatch(fs: FeatureMap, rule: Rule, at: set<Address>)
    requires fs.Valid()
    modifies fs
    ensures fs.Valid() && fs.View() == IndexRuleMatches(old(fs.View()), rule, at)
  {
    ghost var before, names := fs.View(), PublishedNames(rule);
    PublishStep(before, names, 0, at);
    fs.Extend(MatchedRule(rule.name), at);
    if rule.namespace.Some? {
      var prefixes := RuleNamespaces(rule.namespace.value);
      for i := 0 to |prefixes|
        invariant fs.Valid() && fs.View() == PublishNames(before, names[..i + 1], at)
      {
        PublishStep(before, names, i + 1, at);
        fs.Extend(MatchedRule(prefixes[i]), at);
      }
    }
    assert names[..|names|] == names;
  }

  // ---- the loops ----

  /** `evaluate_boolean` as the engine runs it: loops that return early. */
  method EvaluateBooleanPass(node: Node, locs: map<Feature, set<Address>>) returns (r: Outcome<bool, EngineError>)
    ensures r == EvaluateBoolean(node, locs)
    decreases node
  {
    match node.stmt
    case And(children) =>
      for i := 0 to |children|
        invariant AllTrue(children, locs) == AllTrue(children[i..], locs)
      {
        var b := EvaluateBooleanPass(children[i], locs);
        assert children[i..][1..] == children[i + 1..];
        if b.Err? || !b.value { return b; }
      }
      return Ok(true);
    case Or(children) =>
      for i := 0 to |children|
        invariant AnyTrue(children, locs) == AnyTrue(children[i..], locs)
      {
        var b := EvaluateBooleanPass(children[i], locs);
        assert children[i..][1..] == children[i + 1..];
        if b.Err? || b.value { return b; }
      }
      return Ok(false);
    case Not(child) =>
      var b := EvaluateBooleanPass(child, locs);
      return if b.Err? then b else Ok(!b.value);
    case SomeOf(count, children) =>
      var satisfied := 0;
      for i := 0 to |children|
        invariant Satisfied(children, locs, 0, count) == Satisfied(children[i..], locs, satisfied, count)
      {
        var b := EvaluateBooleanPass(children[i], locs);
        assert children[i..][1..] == children[i + 1..];
        if b.Err? { return b; }
        if b.value { satisfied := satisfied + 1; }
        if satisfied >= count { return Ok(true); }
      }
      return Ok(false);
    case Range(f, min, max) =>
      return Ok(WithinRange(|Locations(locs, f)|, min, max));
    case Subscope(scope, _) =>
      return Err(UnextractedSubscope(scope));
    case Leaf(f) =>
      return if f.Com? then Err(UnexpandedCom(f.kind)) else Ok(LeafBoolean(f, locs));
  }

  lemma ValuesStep(q: StringFeature, a: map<Feature, set<Address>>, k: Feature, at: set<Address>)
    requires k in a ==> a[k] == at
    ensures HitValues(q, a[k := at]) == HitValues(q, a) + (if StringHit(q, k) then {k.str.value} else {})
    ensures HitLocations(q, a[k := at]) == HitLocations(q, a) + (if StringHit(q, k) then at else {})
  {
    var b := a[k := at];
    forall f, x | f in b.Keys && StringHit(q, f) && x in b[f]
      ensures x in HitLocations(q, a) + (if StringHit(q, k) then at else {})
    {
      if f != k {
        assert f in a.Keys && x in a[f];
      }
    }
    forall f, x | f in a.Keys && StringHit(q, f) && x in a[f] ensures x in HitLocations(q, b) {
      assert f in b.Keys && x in b[f];
    }
    if StringHit(q, k) {
      forall x | x in at ensures x in HitLocations(q, b) {
        assert k in b.Keys && x in b[k];
      }
    }
  }

  lemma ValueLocationsStep(q: StringFeature, a: map<Feature, set<Address>>, k: Feature, at: set<Address>, v: string)
    requires k in a ==> a[k] == at
    ensures ValueLocations(q, a[k := at], v)
            == ValueLocations(q, a, v) + (if StringHit(q, k) && k.str.value == v then at else {})
  {
    var b := a[k := at];
    forall f, x | f in a.Keys && StringHit(q, f) && f.str.value == v && x in a[f]
      ensures x in ValueLocations(q, b, v)
    {
      assert f in b.Keys && x in b[f];
    }
    if StringHit(q, k) && k.str.value == v {
      forall x | x in at ensures x in ValueLocations(q, b, v) {
        assert k in b.Keys && x in b[k];
      }
    }
  }

  /** What one more key adds to the captures gathered so far. */
  function Captured(q: StringFeature, captures: map<string, set<Address>>, k: Feature, at: set<Address>)
    : map<string, set<Address>>
  {
    if StringHit(q, k) then
      captures[k.str.value := (if k.str.value in captures then captures[k.str.value] else {}) + at]
    else captures
  }

  lemma CapturesStep(q: StringFeature, a: map<Feature, set<Address>>, k: Feature, at: set<Address>)
    requires k in a ==> a[k] == at
    ensures HitCaptures(q, a[k := at]) == Captured(q, HitCaptures(q, a), k, at)
  {
    ValuesStep(q, a, k, at);
    var after, expected := HitCaptures(q, a[k := at]), Captured(q, HitCaptures(q, a), k, at);
    assert after.Keys == expected.Keys;
    forall v | v in after ensures after[v] == expected[v] {
      CaptureAt(q, a, k, at, v);
    }
  }

  lemma CaptureAt(q: StringFeature, a: map<Feature, set<Address>>, k: Feature, at: set<Address>, v: string)
    requires k in a ==> a[k] == at
    requires v in HitCaptures(q, a[k := at]) && v in Captured(q, HitCaptures(q, a), k, at)
    ensures HitCaptures(q, a[k := at])[v] == Captured(q, HitCaptures(q, a), k, at)[v]
  {
    ValueLocationsStep(q, a, k, at, v);
    if v !in HitValues(q, a) {
      assert ValueLocations(q, a, v) == {};
    }
  }

  lemma FirstHitAt(keys: seq<Feature>, i: nat, hit: Feature -> bool)
    requires i < |keys| && hit(keys[i])
    requires forall k | k in keys[..i] :: !hit(k)
    ensures FirstHit(keys, hit) == Some(keys[i])
  {
    if i > 0 {
      assert keys[0] in keys[..i];
      assert keys[1..][..i - 1] == keys[..i][1..];
      FirstHitAt(keys[1..], i - 1, hit);
    }
  }

  /** `eval_string_scan`: one pass over the keys that gathers every hit, or ends at the first. */
  method ScanStrings(f: Feature, fs: FeatureSet, shortCircuit: bool, description: Option<string>)
    returns (r: MatchResult)
    requires f.String?
    ensures r == StringScanResult(f, fs, shortCircuit, description)
  {
    var found, locations, captures := false, {}, map[];
    ghost var seen: map<Feature, set<Address>> := map[];
    for i := 0 to |fs.keys|
      invariant seen.Keys == KeySet(fs.keys[..i])
      invariant forall k | k in seen :: k in fs.locs && seen[k] == fs.locs[k]
      invariant found <==> HitValues(f.str, seen) != {}
      invariant locations == HitLocations(f.str, seen) && captures == HitCaptures(f.str, seen)
      invariant !found ==> locations == {} && captures == map[]
      invariant shortCircuit ==> !found
    {
      var k := fs.keys[i];
      KeyIsLocated(fs, i);
      ValuesStep(f.str, seen, k, fs.locs[k]);
      CapturesStep(f.str, seen, k, fs.locs[k]);
      if StringHit(f.str, k) {
        if shortCircuit {
          FirstHitHere(f.str, fs.keys, i, seen);
          return MatchResult(true, LeafNode(f), description, fs.locs[k], [], map[k.str.value := fs.locs[k]]);
        }
        found := true;
        locations := locations + fs.locs[k];
      }
      captures := Captured(f.str, captures, k, fs.locs[k]);
      seen := seen[k := fs.locs[k]];
    }
    assert fs.keys[..|fs.keys|] == fs.keys;
    assert seen == fs.locs;
    r := MatchResult(found, LeafNode(f), description, locations, [], captures);
    WholeScan(f, fs, shortCircuit, description, found);
  }

  /** When no hit ended the scan, what was gathered is the result. */
  lemma WholeScan(f: Feature, fs: FeatureSet, shortCircuit: bool, description: Option<string>, found: bool)
    requires f.String? && (found <==> HitValues(f.str, fs.locs) != {}) && (shortCircuit ==> !found)
    requires !found ==> HitLocations(f.str, fs.locs) == {} && HitCaptures(f.str, fs.locs) == map[]
    ensures StringScanResult(f, fs, shortCircuit, description)
            == MatchResult(found, LeafNode(f), description, HitLocations(f.str, fs.locs), [],
                           HitCaptures(f.str, fs.locs))
  {
    NoValueNoHit(f.str, fs.locs);
    if shortCircuit {
      NoHitAnywhere(fs, f.str);
    }
  }

  lemma FirstHitHere(q: StringFeature, keys: seq<Feature>, i: nat, seen: map<Feature, set<Address>>)
    requires i < |keys| && StringHit(q, keys[i])
    requires seen.Keys == KeySet(keys[..i]) && HitValues(q, seen) == {}
    ensures FirstHit(keys, k => StringHit(q, k)) == Some(keys[i])
  {
    NoValueNoHit(q, seen);
    KeySetMeans(keys[..i]);
    FirstHitAt(keys, i, k => StringHit(q, k));
  }

  lemma NoHitAnywhere(fs: FeatureSet, q: StringFeature)
    requires !exists k | k in fs.locs.Keys :: StringHit(q, k)
    ensures FirstHit(fs.keys, k => StringHit(q, k)) == None
  {
    KeySetMeans(fs.keys);
  }

  lemma NoValueNoHit(q: StringFeature, locs: map<Feature, set<Address>>)
    ensures HitValues(q, locs) != {} <==> exists k | k in locs.Keys :: StringHit(q, k)
  {
    if k :| k in locs.Keys && StringHit(q, k) {
      assert k.str.value in HitValues(q, locs);
    }
  }
}
