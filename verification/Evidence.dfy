/**
 capa-x/src/result_document/from_capa.rs: building the evidence tree of a match, with the trees of the rules it refers
 to spliced in.
 */
module Evidence {
  import opened Base
  import opened Features
  import opened Rules
  import opened Engine
  import opened MatchingRules
  import opened MatchingRuleSets
  import opened AddressOrder
  import Wire

  datatype DocStatement =
    | DocAnd
    | DocOr
    | DocNot
    | DocOptional
    | DocSome(count: nat)
    | DocRange(min: nat, max: nat, child: Wire.RdFeature)
    | DocSubscope(scope: Scope)

  datatype DocNode =
    | Statement(statement: DocStatement, description: Option<string>)
    | FeatureNode(feature: Wire.RdFeature)

  datatype Match = Match(
    success: bool,
    node: DocNode,
    children: seq<Match>,
    locations: seq<Wire.RawAddress>,
    captures: map<string, seq<Wire.RawAddress>>)

  datatype FromCapaError =
    | FeatureError
    | MissingRuleMatch(rule: string, at: Address)
    | SubscopeRuleMissingScope(rule: string)

  const U64_MAX: nat := 0xffff_ffff_ffff_ffff

  function NodeFromMatched(node: MatchedNode, description: Option<string>): Outcome<DocNode, FromCapaError> {
    match node
    case AndNode => Ok(Statement(DocAnd, description))
    case OrNode => Ok(Statement(DocOr, description))
    case NotNode => Ok(Statement(DocNot, description))
    case SomeNode(count) => Ok(Statement(if count == 0 then DocOptional else DocSome(count), description))
    case RangeNode(f, min, max) =>
      var child := Wire.FromEngine(f, None);
      if child.None? then Err(FeatureError)
      else Ok(Statement(DocRange(min, if max.Some? then max.value else U64_MAX, child.value), description))
    case LeafNode(f) =>
      var feature := Wire.FromEngine(f, description);
      if feature.None? then Err(FeatureError) else Ok(FeatureNode(feature.value))
  }

  // ---- looking up the matches of a rule ----

  type MatchIndex = map<Address, MatchResult>

  function IndexOf(found: seq<(Address, MatchResult)>): MatchIndex {
    if found == [] then map[] else IndexOf(found[..|found| - 1])[found[|found| - 1].0 := found[|found| - 1].1]
  }

  function RuleMatchIndex(capabilities: MatchResults, rule: string): MatchIndex {
    IndexOf(Recorded(capabilities, rule))
  }

  /** The last match that `found` lists at address `a` is `m`. */
  ghost predicate IsLastAt(found: seq<(Address, MatchResult)>, a: Address, m: MatchResult) {
    exists i | 0 <= i < |found| :: found[i] == (a, m) && NotAfter(found, i, a)
  }

  ghost predicate NotAfter(found: seq<(Address, MatchResult)>, i: nat, a: Address) {
    forall j | i < j < |found| :: found[j].0 != a
  }

  /** The index has an entry for each address at which the rule matched, and the last match there wins. */
  lemma {:induction false} LastMatchWins(found: seq<(Address, MatchResult)>, a: Address)
    ensures a in IndexOf(found) <==> exists e | e in found :: e.0 == a
    ensures a in IndexOf(found) ==> IsLastAt(found, a, IndexOf(found)[a])
  {
    if found != [] {
      var init, last := found[..|found| - 1], found[|found| - 1];
      LastMatchWins(init, a);
      assert forall e :: e in found <==> e in init || e == last;
      if last.0 == a {
        assert NotAfter(found, |found| - 1, a);
        assert found[|found| - 1] == (a, IndexOf(found)[a]);
      } else if a in IndexOf(init) {
        var i :| 0 <= i < |init| && init[i] == (a, IndexOf(init)[a]) && NotAfter(init, i, a);
        assert found[i] == (a, IndexOf(found)[a]);
        assert NotAfter(found, i, a);
      }
    }
  }

  /** The calls of one thread up to a call that have an entry. */
  function CallsUpTo(index: MatchIndex, call: Address): set<Address>
    requires call.Call?
  {
    set a | a in index && a.Call? && a.ppid == call.ppid && a.pid == call.pid && a.tid == call.tid && a.id <= call.id
  }

  /** `a` has the highest id of the calls. */
  predicate IsLatest(a: Address, calls: set<Address>)
    requires forall b | b in calls :: b.Call?
  {
    a in calls && forall b | b in calls :: b.id <= a.id
  }

  /** `most_recent_in_thread`: the match at the highest call id up to the call's own, in the same thread. */
  function MostRecent(index: MatchIndex, call: Address): (r: Option<MatchResult>)
    requires call.Call?
    ensures r.Some? <==> CallsUpTo(index, call) != {}
    ensures r.Some? ==> exists a :: IsLatest(a, CallsUpTo(index, call)) && index[a] == r.value
  {
    var calls := CallsUpTo(index, call);
    if calls == {} then None
    else
      LatestExists(calls);
      var a :| IsLatest(a, calls);
      Some(index[a])
  }

  lemma {:induction false} LatestExists(calls: set<Address>)
    requires calls != {} && forall a | a in calls :: a.Call?
    ensures exists a :: IsLatest(a, calls)
  {
    var x :| x in calls;
    var rest := calls - {x};
    if rest == {} {
      assert forall b | b in calls :: b in rest || b == x;
      assert IsLatest(x, calls);
    } else {
      LatestExists(rest);
      var y :| IsLatest(y, rest);
      var a := if x.id <= y.id then y else x;
      forall b | b in calls ensures b.id <= a.id {
        assert b in rest || b == x;
      }
      assert IsLatest(a, calls);
    }
  }

  // ---- what is spliced in below a successful `match:` leaf ----

  datatype Step = Splice(rule: string, tree: MatchResult) | Missing(rule: string, at: Address)

  /** One location of a `match:` leaf, for one rule; only a reference to the rule by name insists on a match there. */
  function StepAt(index: MatchIndex, rule: string, a: Address, byName: bool): seq<Step> {
    if a in index then [Splice(rule, index[a])]
    else if a.Call? then
      var recent := MostRecent(index, a);
      if recent.Some? then [Splice(rule, recent.value)] else []
    else if byName then [Missing(rule, a)]
    else []
  }

  function StepsAt(index: MatchIndex, rule: string, at: seq<Address>, byName: bool): seq<Step> {
    if at == [] then [] else StepsAt(index, rule, at[..|at| - 1], byName) + StepAt(index, rule, at[|at| - 1], byName)
  }

  function NamespaceSteps(capabilities: MatchResults, members: seq<string>, at: seq<Address>): seq<Step> {
    if members == [] then []
    else
      var init, last := NamespaceSteps(capabilities, members[..|members| - 1], at), members[|members| - 1];
      if last in capabilities then init + StepsAt(RuleMatchIndex(capabilities, last), last, at, false) else init
  }

  function MembersIn(rs: MatchingRuleSet, name: string): seq<string> {
    if name in rs.namespaces then rs.namespaces[name] else []
  }

  function Steps(rs: MatchingRuleSet, capabilities: MatchResults, name: string, at: seq<Address>): seq<Step> {
    if Named(rs.rules, name).Some? then StepsAt(RuleMatchIndex(capabilities, name), name, at, true)
    else NamespaceSteps(capabilities, MembersIn(rs, name), at)
  }

  // ---- what makes the recursion end ----

  /** The names of the successful `match:` leaves of a tree. */
  function CitedNames(m: MatchResult): set<string>
    decreases m
  {
    (if m.success && m.node.LeafNode? && m.node.feature.MatchedRule? then {m.node.feature.name} else {})
    + ListCitedNames(m.children)
  }

  function ListCitedNames(ms: seq<MatchResult>): set<string>
    decreases ms
  {
    if ms == [] then {} else ListCitedNames(ms[..|ms| - 1]) + CitedNames(ms[|ms| - 1])
  }

  /** The rule has a rank, and it is below `rank`. */
  predicate RuleBelow(ranks: map<string, nat>, rule: string, rank: nat) {
    rule in ranks && ranks[rule] < rank
  }

  /** Whatever the name stands for has a rank below `rank`. */
  predicate NameBelow(rs: MatchingRuleSet, ranks: map<string, nat>, name: string, rank: nat) {
    if Named(rs.rules, name).Some? then RuleBelow(ranks, name, rank)
    else forall rule | rule in MembersIn(rs, name) :: RuleBelow(ranks, rule, rank)
  }

  predicate CitesBelow(rs: MatchingRuleSet, ranks: map<string, nat>, m: MatchResult, rank: nat) {
    forall name | name in CitedNames(m) :: NameBelow(rs, ranks, name, rank)
  }

  predicate RecordIsRanked(rs: MatchingRuleSet, ranks: map<string, nat>, rule: string, e: (Address, MatchResult)) {
    rule in ranks && CitesBelow(rs, ranks, e.1, ranks[rule])
  }

  /** Every recorded tree is of a ranked rule, and cites only rules that rank below it. */
  ghost predicate Ranked(rs: MatchingRuleSet, ranks: map<string, nat>, capabilities: MatchResults) {
    forall rule, e | e in Recorded(capabilities, rule) :: RecordIsRanked(rs, ranks, rule, e)
  }

  predicate StepsBelow(rs: MatchingRuleSet, ranks: map<string, nat>, steps: seq<Step>, rank: nat) {
    forall s | s in steps && s.Splice? :: RuleBelow(ranks, s.rule, rank) && CitesBelow(rs, ranks, s.tree, ranks[s.rule])
  }

  lemma ChildrenCiteBelow(rs: MatchingRuleSet, ranks: map<string, nat>, m: MatchResult, rank: nat)
    requires CitesBelow(rs, ranks, m, rank)
    ensures forall c | c in m.children :: CitesBelow(rs, ranks, c, rank)
  {
    forall c | c in m.children ensures CitedNames(c) <= CitedNames(m) {
      ListCites(m.children, c);
    }
  }

  lemma {:induction false} ListCites(ms: seq<MatchResult>, m: MatchResult)
    requires m in ms
    ensures CitedNames(m) <= ListCitedNames(ms)
  {
    if m != ms[|ms| - 1] {
      ListCites(ms[..|ms| - 1], m);
    }
  }

  /** What the steps at some addresses splice in are recorded trees of the rule. */
  lemma {:induction false} StepsAreRecorded(capabilities: MatchResults, rule: string, at: seq<Address>, byName: bool)
    ensures forall s | s in StepsAt(RuleMatchIndex(capabilities, rule), rule, at, byName) && s.Splice? ::
              s.rule == rule && exists a :: (a, s.tree) in Recorded(capabilities, rule)
  {
    if at != [] {
      StepsAreRecorded(capabilities, rule, at[..|at| - 1], byName);
      var index, a := RuleMatchIndex(capabilities, rule), at[|at| - 1];
      forall s | s in StepAt(index, rule, a, byName) && s.Splice?
        ensures s.rule == rule && exists b :: (b, s.tree) in Recorded(capabilities, rule)
      {
        if a in index {
          LastMatchWins(Recorded(capabilities, rule), a);
        } else {
          var b :| IsLatest(b, CallsUpTo(index, a)) && index[b] == s.tree;
          LastMatchWins(Recorded(capabilities, rule), b);
        }
      }
    }
  }

  lemma RuleStepsAreBelow(rs: MatchingRuleSet, ranks: map<string, nat>, capabilities: MatchResults, rule: string,
                          at: seq<Address>, byName: bool, rank: nat)
    requires Ranked(rs, ranks, capabilities) && RuleBelow(ranks, rule, rank)
    ensures StepsBelow(rs, ranks, StepsAt(RuleMatchIndex(capabilities, rule), rule, at, byName), rank)
  {
    StepsAreRecorded(capabilities, rule, at, byName);
  }

  lemma {:induction false} NamespaceStepsAreBelow(rs: MatchingRuleSet, ranks: map<string, nat>,
                                                  capabilities: MatchResults, members: seq<string>, at: seq<Address>,
                                                  rank: nat)
    requires Ranked(rs, ranks, capabilities) && forall rule | rule in members :: RuleBelow(ranks, rule, rank)
    ensures StepsBelow(rs, ranks, NamespaceSteps(capabilities, members, at), rank)
  {
    if members != [] {
      NamespaceStepsAreBelow(rs, ranks, capabilities, members[..|members| - 1], at, rank);
      RuleStepsAreBelow(rs, ranks, capabilities, members[|members| - 1], at, false, rank);
    }
  }

  lemma StepsAreBelow(rs: MatchingRuleSet, ranks: map<string, nat>, capabilities: MatchResults, name: string,
                      at: seq<Address>, rank: nat)
    requires Ranked(rs, ranks, capabilities) && NameBelow(rs, ranks, name, rank)
    ensures StepsBelow(rs, ranks, Steps(rs, capabilities, name, at), rank)
  {
    if Named(rs.rules, name).Some? {
      RuleStepsAreBelow(rs, ranks, capabilities, name, at, true, rank);
    } else {
      NamespaceStepsAreBelow(rs, ranks, capabilities, MembersIn(rs, name), at, rank);
    }
  }

  // ---- the tree that is built ----

  function Rendered(at: seq<Address>): seq<Wire.RawAddress> {
    seq(|at|, i requires 0 <= i < |at| => Wire.FromAddress(at[i]))
  }

  function RenderedLocations(m: MatchResult): seq<Wire.RawAddress> {
    if (m.node.LeafNode? || m.node.RangeNode?) && m.success then Rendered(Ascending(m.locations)) else []
  }

  function RenderedCaptures(m: MatchResult): map<string, seq<Wire.RawAddress>> {
    map k | k in m.captures :: Rendered(Ascending(m.captures[k]))
  }

  /** Whether something is spliced in below the root of the tree. */
  predicate IsReference(m: MatchResult) {
    m.success && m.node.LeafNode? && m.node.feature.MatchedRule?
  }

  function SubscopeOf(rule: Rule): Option<Scope> {
    if rule.scopes.static_.Some? then rule.scopes.static_ else rule.scopes.dynamic
  }

  /** The node of a reference to a synthetic rule is shown as the subscope it came from. */
  function ReferenceNode(rs: MatchingRuleSet, name: string, node: DocNode): Outcome<DocNode, FromCapaError> {
    var rule := Named(rs.rules, name);
    if rule.None? || !rule.value.IsSubscopeRule() then Ok(node)
    else if SubscopeOf(rule.value).None? then Err(SubscopeRuleMissingScope(name))
    else Ok(Statement(DocSubscope(SubscopeOf(rule.value).value), None))
  }

  /** `build_match`, on a ranking of the rules that makes its recursion end: first the rank falls, then the tree. */
  ghost function Build(rs: MatchingRuleSet, ranks: map<string, nat>, capabilities: MatchResults, m: MatchResult,
                       rank: nat)
    : Outcome<Match, FromCapaError>
    requires Ranked(rs, ranks, capabilities) && CitesBelow(rs, ranks, m, rank)
    decreases rank, 1, m
  {
    ChildrenCiteBelow(rs, ranks, m, rank);
    var node :- NodeFromMatched(m.node, m.description);
    var children :- BuildList(rs, ranks, capabilities, m.children, rank);
    if !IsReference(m) then Ok(Match(m.success, node, children, RenderedLocations(m), RenderedCaptures(m)))
    else
      var name := m.node.feature.name;
      assert name in CitedNames(m);
      StepsAreBelow(rs, ranks, capabilities, name, Ascending(m.locations), rank);
      var shown :- ReferenceNode(rs, name, node);
      var spliced :- BuildSteps(rs, ranks, capabilities, Steps(rs, capabilities, name, Ascending(m.locations)), rank);
      Ok(Match(m.success, shown, children + spliced, RenderedLocations(m), RenderedCaptures(m)))
  }

  ghost function BuildList(rs: MatchingRuleSet, ranks: map<string, nat>, capabilities: MatchResults,
                           ms: seq<MatchResult>, rank: nat)
    : Outcome<seq<Match>, FromCapaError>
    requires Ranked(rs, ranks, capabilities) && forall m | m in ms :: CitesBelow(rs, ranks, m, rank)
    decreases rank, 1, ms
  {
    if ms == [] then Ok([])
    else
      var init :- BuildList(rs, ranks, capabilities, ms[..|ms| - 1], rank);
      var last :- Build(rs, ranks, capabilities, ms[|ms| - 1], rank);
      Ok(init + [last])
  }

  ghost function BuildSteps(rs: MatchingRuleSet, ranks: map<string, nat>, capabilities: MatchResults, steps: seq<Step>,
                            rank: nat)
    : Outcome<seq<Match>, FromCapaError>
    requires Ranked(rs, ranks, capabilities) && StepsBelow(rs, ranks, steps, rank)
    decreases rank, 0, |steps|
  {
    if steps == [] then Ok([])
    else
      var init :- BuildSteps(rs, ranks, capabilities, steps[..|steps| - 1], rank);
      match steps[|steps| - 1]
      case Missing(rule, at) => Err(MissingRuleMatch(rule, at))
      case Splice(rule, tree) =>
        var last :- Build(rs, ranks, capabilities, tree, ranks[rule]);
        Ok(init + [last])
  }

  // ---- the recursive builder ----

  lemma {:induction false} FailedPrefixFails(rs: MatchingRuleSet, ranks: map<string, nat>, capabilities: MatchResults,
                                             ms: seq<MatchResult>, n: nat, rank: nat)
    requires Ranked(rs, ranks, capabilities) && forall m | m in ms :: CitesBelow(rs, ranks, m, rank)
    requires n <= |ms| && BuildList(rs, ranks, capabilities, ms[..n], rank).Err?
    ensures BuildList(rs, ranks, capabilities, ms, rank) == BuildList(rs, ranks, capabilities, ms[..n], rank)
    decreases |ms|
  {
    if n == |ms| {
      assert ms[..n] == ms;
    } else {
      assert ms[..|ms| - 1][..n] == ms[..n];
      FailedPrefixFails(rs, ranks, capabilities, ms[..|ms| - 1], n, rank);
    }
  }

  lemma {:induction false} FailedStepsFail(rs: MatchingRuleSet, ranks: map<string, nat>, capabilities: MatchResults,
                                           steps: seq<Step>, n: nat, rank: nat)
    requires Ranked(rs, ranks, capabilities) && StepsBelow(rs, ranks, steps, rank)
    requires n <= |steps| && BuildSteps(rs, ranks, capabilities, steps[..n], rank).Err?
    ensures BuildSteps(rs, ranks, capabilities, steps, rank) == BuildSteps(rs, ranks, capabilities, steps[..n], rank)
    decreases |steps|
  {
    if n == |steps| {
      assert steps[..n] == steps;
    } else {
      assert steps[..|steps| - 1][..n] == steps[..n];
      FailedStepsFail(rs, ranks, capabilities, steps[..|steps| - 1], n, rank);
    }
  }

  /** The builder itself. It needs no cycle check: the ranking that the acyclic rules provide makes it end. */
  method BuildMatch(rs: MatchingRuleSet, capabilities: MatchResults, m: MatchResult, ghost ranks: map<string, nat>,
                    ghost rank: nat)
    returns (r: Outcome<Match, FromCapaError>)
    requires Ranked(rs, ranks, capabilities) && CitesBelow(rs, ranks, m, rank)
    ensures r == Build(rs, ranks, capabilities, m, rank)
    decreases rank, 1, m
  {
    ChildrenCiteBelow(rs, ranks, m, rank);
    var node := NodeFromMatched(m.node, m.description);
    if node.Err? { return Err(node.error); }
    var children: seq<Match> := [];
    for i := 0 to |m.children|
      invariant BuildList(rs, ranks, capabilities, m.children[..i], rank) == Ok(children)
    {
      var child := BuildMatch(rs, capabilities, m.children[i], ranks, rank);
      assert m.children[..i + 1][..i] == m.children[..i];
      if child.Err? {
        FailedPrefixFails(rs, ranks, capabilities, m.children, i + 1, rank);
        return Err(child.error);
      }
      children := children + [child.value];
    }
    assert m.children[..|m.children|] == m.children;
    if !IsReference(m) {
      return Ok(Match(m.success, node.value, children, RenderedLocations(m), RenderedCaptures(m)));
    }
    var name := m.node.feature.name;
    assert name in CitedNames(m);
    StepsAreBelow(rs, ranks, capabilities, name, Ascending(m.locations), rank);
    var shown := ReferenceNode(rs, name, node.value);
    if shown.Err? { return Err(shown.error); }
    var spliced := BuildSpliced(rs, capabilities, Steps(rs, capabilities, name, Ascending(m.locations)), ranks, rank);
    if spliced.Err? { return Err(spliced.error); }
    r := Ok(Match(m.success, shown.value, children + spliced.value, RenderedLocations(m), RenderedCaptures(m)));
  }

  method BuildSpliced(rs: MatchingRuleSet, capabilities: MatchResults, steps: seq<Step>, ghost ranks: map<string, nat>,
                      ghost rank: nat)
    returns (r: Outcome<seq<Match>, FromCapaError>)
    requires Ranked(rs, ranks, capabilities) && StepsBelow(rs, ranks, steps, rank)
    ensures r == BuildSteps(rs, ranks, capabilities, steps, rank)
    decreases rank, 0
  {
    var spliced: seq<Match> := [];
    for i := 0 to |steps|
      invariant BuildSteps(rs, ranks, capabilities, steps[..i], rank) == Ok(spliced)
    {
      assert steps[..i + 1][..i] == steps[..i];
      match steps[i]
      case Missing(rule, at) =>
        FailedStepsFail(rs, ranks, capabilities, steps, i + 1, rank);
        return Err(MissingRuleMatch(rule, at));
      case Splice(rule, tree) =>
        assert steps[i] in steps;
        var child := BuildMatch(rs, capabilities, tree, ranks, ranks[rule]);
        if child.Err? {
          FailedStepsFail(rs, ranks, capabilities, steps, i + 1, rank);
          return Err(child.error);
        }
        spliced := spliced + [child.value];
    }
    assert steps[..|steps|] == steps;
    r := Ok(spliced);
  }

  // ---- when building succeeds ----

  /** The node can be shown, and where it refers to a rule by name, that rule has a recorded match at each location. */
  ghost predicate NodeIsSound(rs: MatchingRuleSet, capabilities: MatchResults, m: MatchResult) {
    && NodeFromMatched(m.node, m.description).Ok?
    && (IsReference(m) && Named(rs.rules, m.node.feature.name).Some? ==>
          && SubscopeOf(Named(rs.rules, m.node.feature.name).value).Some?
          && forall a | a in m.locations && !a.Call? :: a in RuleMatchIndex(capabilities, m.node.feature.name))
  }

  ghost predicate TreeIsSound(rs: MatchingRuleSet, capabilities: MatchResults, m: MatchResult)
    decreases m
  {
    NodeIsSound(rs, capabilities, m) && forall c | c in m.children :: TreeIsSound(rs, capabilities, c)
  }

  /** The evidence is closed: every recorded tree is sound. */
  ghost predicate EvidenceIsSound(rs: MatchingRuleSet, capabilities: MatchResults) {
    forall rule, e | e in Recorded(capabilities, rule) :: TreeIsSound(rs, capabilities, e.1)
  }

  ghost predicate NoneMissing(steps: seq<Step>) {
    forall s | s in steps :: s.Splice?
  }

  lemma {:induction false} StepsAtFindAll(index: MatchIndex, rule: string, at: seq<Address>, byName: bool)
    requires byName ==> forall a | a in at && !a.Call? :: a in index
    ensures NoneMissing(StepsAt(index, rule, at, byName))
  {
    if at != [] {
      StepsAtFindAll(index, rule, at[..|at| - 1], byName);
    }
  }

  lemma {:induction false} NamespaceStepsFindAll(capabilities: MatchResults, members: seq<string>, at: seq<Address>)
    ensures NoneMissing(NamespaceSteps(capabilities, members, at))
  {
    if members != [] {
      NamespaceStepsFindAll(capabilities, members[..|members| - 1], at);
      var last := members[|members| - 1];
      StepsAtFindAll(RuleMatchIndex(capabilities, last), last, at, false);
    }
  }

  /** Every spliced tree is a recorded one. */
  lemma {:induction false} NamespaceStepsAreRecorded(capabilities: MatchResults, members: seq<string>, at: seq<Address>)
    ensures forall s | s in NamespaceSteps(capabilities, members, at) && s.Splice? ::
              exists a :: (a, s.tree) in Recorded(capabilities, s.rule)
  {
    if members != [] {
      NamespaceStepsAreRecorded(capabilities, members[..|members| - 1], at);
      StepsAreRecorded(capabilities, members[|members| - 1], at, false);
    }
  }

  lemma StepsAreSound(rs: MatchingRuleSet, capabilities: MatchResults, m: MatchResult)
    requires EvidenceIsSound(rs, capabilities) && NodeIsSound(rs, capabilities, m) && IsReference(m)
    ensures var steps := Steps(rs, capabilities, m.node.feature.name, Ascending(m.locations));
            NoneMissing(steps) && forall s | s in steps :: TreeIsSound(rs, capabilities, s.tree)
  {
    var name, at := m.node.feature.name, Ascending(m.locations);
    if Named(rs.rules, name).Some? {
      StepsAtFindAll(RuleMatchIndex(capabilities, name), name, at, true);
      StepsAreRecorded(capabilities, name, at, true);
    } else {
      NamespaceStepsFindAll(capabilities, MembersIn(rs, name), at);
      NamespaceStepsAreRecorded(capabilities, MembersIn(rs, name), at);
    }
    var steps := Steps(rs, capabilities, name, at);
    forall s | s in steps ensures TreeIsSound(rs, capabilities, s.tree) {
      var a :| (a, s.tree) in Recorded(capabilities, s.rule);
    }
  }

  /** On closed evidence the builder never fails, whatever it splices into what. */
  lemma {:induction false} BuildSucceeds(rs: MatchingRuleSet, ranks: map<string, nat>, capabilities: MatchResults,
                                         m: MatchResult, rank: nat)
    requires Ranked(rs, ranks, capabilities) && CitesBelow(rs, ranks, m, rank)
    requires EvidenceIsSound(rs, capabilities) && TreeIsSound(rs, capabilities, m)
    ensures Build(rs, ranks, capabilities, m, rank).Ok?
    decreases rank, 1, m
  {
    ChildrenCiteBelow(rs, ranks, m, rank);
    BuildListSucceeds(rs, ranks, capabilities, m.children, rank);
    if IsReference(m) {
      var name := m.node.feature.name;
      assert name in CitedNames(m);
      StepsAreBelow(rs, ranks, capabilities, name, Ascending(m.locations), rank);
      StepsAreSound(rs, capabilities, m);
      BuildStepsSucceed(rs, ranks, capabilities, Steps(rs, capabilities, name, Ascending(m.locations)), rank);
    }
  }

  lemma {:induction false} BuildListSucceeds(rs: MatchingRuleSet, ranks: map<string, nat>, capabilities: MatchResults,
                                             ms: seq<MatchResult>, rank: nat)
    requires Ranked(rs, ranks, capabilities) && forall m | m in ms :: CitesBelow(rs, ranks, m, rank)
    requires EvidenceIsSound(rs, capabilities) && forall m | m in ms :: TreeIsSound(rs, capabilities, m)
    ensures BuildList(rs, ranks, capabilities, ms, rank).Ok?
    decreases rank, 1, ms
  {
    if ms != [] {
      BuildListSucceeds(rs, ranks, capabilities, ms[..|ms| - 1], rank);
      BuildSucceeds(rs, ranks, capabilities, ms[|ms| - 1], rank);
    }
  }

  lemma {:induction false} BuildStepsSucceed(rs: MatchingRuleSet, ranks: map<string, nat>, capabilities: MatchResults,
                                             steps: seq<Step>, rank: nat)
    requires Ranked(rs, ranks, capabilities) && StepsBelow(rs, ranks, steps, rank)
    requires EvidenceIsSound(rs, capabilities) && NoneMissing(steps)
             && forall s | s in steps :: TreeIsSound(rs, capabilities, s.tree)
    ensures BuildSteps(rs, ranks, capabilities, steps, rank).Ok?
    decreases rank, 0, |steps|
  {
    if steps != [] {
      BuildStepsSucceed(rs, ranks, capabilities, steps[..|steps| - 1], rank);
      var last := steps[|steps| - 1];
      BuildSucceeds(rs, ranks, capabilities, last.tree, ranks[last.rule]);
    }
  }

  ghost predicate RecordIsBuilt(rs: MatchingRuleSet, ranks: map<string, nat>, capabilities: MatchResults, rule: string,
                                e: (Address, MatchResult))
    requires Ranked(rs, ranks, capabilities) && e in Recorded(capabilities, rule)
  {
    assert RecordIsRanked(rs, ranks, rule, e);
    Build(rs, ranks, capabilities, e.1, ranks[rule]).Ok?
  }

  /** Every recorded match has a document tree. */
  ghost predicate EveryRecordIsBuilt(rs: MatchingRuleSet, ranks: map<string, nat>, capabilities: MatchResults)
    requires Ranked(rs, ranks, capabilities)
  {
    forall rule, e | e in Recorded(capabilities, rule) :: RecordIsBuilt(rs, ranks, capabilities, rule, e)
  }

  lemma SoundEvidenceIsBuilt(rs: MatchingRuleSet, ranks: map<string, nat>, capabilities: MatchResults)
    requires Ranked(rs, ranks, capabilities) && EvidenceIsSound(rs, capabilities)
    ensures EveryRecordIsBuilt(rs, ranks, capabilities)
  {
    forall rule, e | e in Recorded(capabilities, rule) ensures RecordIsBuilt(rs, ranks, capabilities, rule, e) {
      assert RecordIsRanked(rs, ranks, rule, e);
      BuildSucceeds(rs, ranks, capabilities, e.1, ranks[rule]);
    }
  }

  // ---- the document ----

  /** For each rule that is shown, where it matched and why. */
  type Document = map<string, seq<(Wire.RawAddress, Match)>>

  /** The rules that the document shows: those of the set that matched, synthetic ones aside. */
  predicate IsShown(rs: MatchingRuleSet, rule: string) {
    Named(rs.rules, rule).Some? && !Named(rs.rules, rule).value.IsSubscopeRule()
  }

  /** The entry shows the recorded match `e`: its address, and the tree built for it. */
  ghost predicate Shows(rs: MatchingRuleSet, ranks: map<string, nat>, capabilities: MatchResults, rule: string,
                        e: (Address, MatchResult), entry: (Wire.RawAddress, Match))
    requires Ranked(rs, ranks, capabilities) && e in Recorded(capabilities, rule)
  {
    assert RecordIsRanked(rs, ranks, rule, e);
    entry.0 == Wire.FromAddress(e.0) && Build(rs, ranks, capabilities, e.1, ranks[rule]) == Ok(entry.1)
  }

  /** `entries` show the first `n` recorded matches of the rule, in order. */
  ghost predicate Lists(rs: MatchingRuleSet, ranks: map<string, nat>, capabilities: MatchResults, rule: string, n: nat,
                        entries: seq<(Wire.RawAddress, Match)>)
    requires Ranked(rs, ranks, capabilities) && n <= |Recorded(capabilities, rule)|
  {
    && |entries| == n
    && forall i | 0 <= i < n :: Shows(rs, ranks, capabilities, rule, Recorded(capabilities, rule)[i], entries[i])
  }

  ghost predicate ListsAll(rs: MatchingRuleSet, ranks: map<string, nat>, capabilities: MatchResults, rule: string,
                           entries: seq<(Wire.RawAddress, Match)>)
    requires Ranked(rs, ranks, capabilities)
  {
    Lists(rs, ranks, capabilities, rule, |Recorded(capabilities, rule)|, entries)
  }

  ghost predicate SomeBuildFails(rs: MatchingRuleSet, ranks: map<string, nat>, capabilities: MatchResults,
                                 error: FromCapaError)
    requires Ranked(rs, ranks, capabilities)
  {
    exists rule, e | e in Recorded(capabilities, rule) && RecordIsRanked(rs, ranks, rule, e) ::
      Build(rs, ranks, capabilities, e.1, ranks[rule]) == Err(error)
  }

  method BuildEntries(rs: MatchingRuleSet, capabilities: MatchResults, rule: string, ghost ranks: map<string, nat>)
    returns (r: Outcome<seq<(Wire.RawAddress, Match)>, FromCapaError>)
    requires Ranked(rs, ranks, capabilities) && rule in capabilities
    ensures r.Ok? ==> ListsAll(rs, ranks, capabilities, rule, r.value)
    ensures r.Err? ==> SomeBuildFails(rs, ranks, capabilities, r.error)
  {
    var found := capabilities[rule];
    var entries: seq<(Wire.RawAddress, Match)> := [];
    for i := 0 to |found|
      invariant Lists(rs, ranks, capabilities, rule, i, entries)
    {
      assert found[i] in Recorded(capabilities, rule);
      assert RecordIsRanked(rs, ranks, rule, found[i]);
      var m := BuildMatch(rs, capabilities, found[i].1, ranks, ranks[rule]);
      if m.Err? { return Err(m.error); }
      entries := entries + [(Wire.FromAddress(found[i].0), m.value)];
    }
    r := Ok(entries);
  }

  /** `build_result_document`: the shown rules, whatever order the hash map of matches yields them in. */
  method BuildResultDocument(rs: MatchingRuleSet, capabilities: MatchResults, ghost ranks: map<string, nat>)
    returns (r: Outcome<Document, FromCapaError>)
    requires Ranked(rs, ranks, capabilities)
    ensures r.Ok? ==>
              && (forall rule :: rule in r.value <==> rule in capabilities && IsShown(rs, rule))
              && forall rule | rule in r.value :: ListsAll(rs, ranks, capabilities, rule, r.value[rule])
    ensures r.Err? ==> SomeBuildFails(rs, ranks, capabilities, r.error)
  {
    var document: Document := map[];
    var rest := capabilities.Keys;
    while rest != {}
      invariant rest <= capabilities.Keys
      invariant forall rule :: rule in document <==> rule in capabilities.Keys - rest && IsShown(rs, rule)
      invariant forall rule | rule in document :: ListsAll(rs, ranks, capabilities, rule, document[rule])
    {
      var rule :| rule in rest;
      if IsShown(rs, rule) {
        var entries := BuildEntries(rs, capabilities, rule, ranks);
        if entries.Err? { return Err(entries.error); }
        document := document[rule := entries.value];
      }
      rest := rest - {rule};
    }
    r := Ok(document);
  }
}
