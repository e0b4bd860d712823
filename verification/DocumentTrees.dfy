/**
 What the document must show of a match, told from the recorded matches alone: the match's own evidence first, and below
 a reference the recorded matches of what it refers to, spliced in. The builder yields such a tree whenever it succeeds.
 */
module DocumentTrees {
  import opened Base
  import opened Features
  import opened Engine
  import opened MatchingRules
  import opened MatchingRuleSets
  import opened AddressOrder
  import opened Evidence
  import Wire

  // ---- addresses ----

  ghost predicate ListsAddresses(order: seq<Address>, at: set<Address>) {
    IsAscending(order) && forall a :: a in order <==> a in at
  }

  /** The addresses of the set, in ascending order, as they are written. */
  ghost predicate ShowsAddresses(shown: seq<Wire.RawAddress>, at: set<Address>) {
    exists order :: ListsAddresses(order, at) && AreWritten(shown, order)
  }

  ghost predicate AreWritten(shown: seq<Wire.RawAddress>, order: seq<Address>) {
    |shown| == |order| && forall i | 0 <= i < |order| :: shown[i] == Wire.FromAddress(order[i])
  }

  // ---- which recorded match a reference shows ----

  ghost predicate WasRecordedAt(capabilities: MatchResults, rule: string, a: Address) {
    exists e | e in Recorded(capabilities, rule) :: e.0 == a
  }

  predicate IsEarlierCall(a: Address, call: Address) {
    a.Call? && call.Call? && a.ppid == call.ppid && a.pid == call.pid && a.tid == call.tid && a.id <= call.id
  }

  /** The latest call of the thread, up to `call`, at which the rule was recorded. */
  ghost predicate IsLatestCall(capabilities: MatchResults, rule: string, call: Address, a: Address) {
    && IsEarlierCall(a, call) && WasRecordedAt(capabilities, rule, a)
    && forall b | IsEarlierCall(b, call) && WasRecordedAt(capabilities, rule, b) :: b.id <= a.id
  }

  /** The match to show for the rule at a location: the last recorded there, or at a call the thread's most recent. */
  ghost predicate IsMatchFor(capabilities: MatchResults, rule: string, a: Address, m: MatchResult) {
    if WasRecordedAt(capabilities, rule, a) then IsLastAt(Recorded(capabilities, rule), a, m)
    else exists b :: IsLatestCall(capabilities, rule, a, b) && IsLastAt(Recorded(capabilities, rule), b, m)
  }

  ghost predicate HasMatchFor(capabilities: MatchResults, rule: string, a: Address) {
    exists m :: IsMatchFor(capabilities, rule, a, m)
  }

  /** The rules that a name stands for: the rule so named, or else the rules in the namespace. */
  function Targets(rs: MatchingRuleSet, name: string): seq<string> {
    if Named(rs.rules, name).Some? then [name] else MembersIn(rs, name)
  }

  predicate ComesBefore(x: (nat, Address), y: (nat, Address)) {
    x.0 < y.0 || (x.0 == y.0 && AtMost(x.1, y.1) && x.1 != y.1)
  }

  ghost predicate InOrder(plan: seq<(nat, Address)>) {
    forall i, j | 0 <= i < j < |plan| :: ComesBefore(plan[i], plan[j])
  }

  /** Everything that is to be spliced in, each once: target by target, and for each by ascending address. */
  ghost predicate IsPlan(capabilities: MatchResults, targets: seq<string>, at: set<Address>,
                         plan: seq<(nat, Address)>)
  {
    (forall e: (nat, Address) :: e in plan <==> IsDue(capabilities, targets, at, e)) && InOrder(plan)
  }

  ghost predicate IsDue(capabilities: MatchResults, targets: seq<string>, at: set<Address>, e: (nat, Address)) {
    e.0 < |targets| && e.1 in at && HasMatchFor(capabilities, targets[e.0], e.1)
  }

  // ---- what the document shows ----

  ghost predicate IsSplicing(m: MatchResult) {
    m.success && m.node.LeafNode? && m.node.feature.MatchedRule?
  }

  /** The node: the statement or feature itself, but for a reference to a synthetic rule the subscope it came from. */
  ghost predicate NodeTells(rs: MatchingRuleSet, m: MatchResult, node: DocNode) {
    if IsSplicing(m) && IsSynthetic(rs, m.node.feature.name) then
      var scopes := Named(rs.rules, m.node.feature.name).value.scopes;
      && (scopes.static_.Some? || scopes.dynamic.Some?)
      && node.Statement? && node.description.None?
      && node.statement == DocSubscope(if scopes.static_.Some? then scopes.static_.value else scopes.dynamic.value)
    else
      match m.node
      case AndNode => node == Statement(DocAnd, m.description)
      case OrNode => node == Statement(DocOr, m.description)
      case NotNode => node == Statement(DocNot, m.description)
      case SomeNode(count) => node == Statement(if count == 0 then DocOptional else DocSome(count), m.description)
      case RangeNode(f, min, max) =>
        && node.Statement? && node.statement.DocRange? && node.description == m.description
        && node.statement.min == min && Wire.FromEngine(f, None) == Some(node.statement.child)
        && node.statement.max == if max.Some? then max.value else 0xffff_ffff_ffff_ffff
      case LeafNode(f) => node.FeatureNode? && Wire.FromEngine(f, m.description) == Some(node.feature)
  }

  predicate IsSynthetic(rs: MatchingRuleSet, name: string) {
    Named(rs.rules, name).Some? && Named(rs.rules, name).value.IsSubscopeRule()
  }

  /** `d` is the document tree of `m`. */
  ghost predicate Tells(rs: MatchingRuleSet, capabilities: MatchResults, m: MatchResult, d: Match)
    decreases d, 1
  {
    && d.success == m.success && NodeTells(rs, m, d.node)
    && d.captures.Keys == m.captures.Keys
    && (forall k | k in m.captures :: ShowsAddresses(d.captures[k], m.captures[k]))
    && (if m.success && (m.node.LeafNode? || m.node.RangeNode?) then ShowsAddresses(d.locations, m.locations)
        else d.locations == [])
    && |m.children| <= |d.children|
    && (forall i | 0 <= i < |m.children| :: Tells(rs, capabilities, m.children[i], d.children[i]))
    && if IsSplicing(m) then
         exists plan | IsPlan(capabilities, Targets(rs, m.node.feature.name), m.locations, plan) ::
           SplicesFollow(rs, capabilities, Targets(rs, m.node.feature.name), plan, |m.children|, d)
       else |d.children| == |m.children|
  }

  /** After the first `n`, the children of `d` are what is spliced in by the plan. */
  ghost predicate SplicesFollow(rs: MatchingRuleSet, capabilities: MatchResults, targets: seq<string>,
                                plan: seq<(nat, Address)>, n: nat, d: Match)
    decreases d, 0
  {
    && |d.children| == n + |plan|
    && forall i | n <= i < |d.children| :: TellsSpliced(rs, capabilities, targets, plan[i - n], d.children[i])
  }

  /** `d` is the document tree of the match that is due at this place. */
  ghost predicate TellsSpliced(rs: MatchingRuleSet, capabilities: MatchResults, targets: seq<string>, e: (nat, Address),
                               d: Match)
    decreases d, 2
  {
    && e.0 < |targets|
    && exists m :: IsMatchFor(capabilities, targets[e.0], e.1, m) && Tells(rs, capabilities, m, d)
  }

  // ---- the index finds the match to show ----

  lemma IndexedIsRecorded(capabilities: MatchResults, rule: string, a: Address)
    ensures a in RuleMatchIndex(capabilities, rule) <==> WasRecordedAt(capabilities, rule, a)
    ensures a in RuleMatchIndex(capabilities, rule) ==>
              IsMatchFor(capabilities, rule, a, RuleMatchIndex(capabilities, rule)[a])
  {
    LastMatchWins(Recorded(capabilities, rule), a);
  }

  lemma CallsAreEarlier(capabilities: MatchResults, rule: string, call: Address)
    requires call.Call?
    ensures forall b :: b in CallsUpTo(RuleMatchIndex(capabilities, rule), call)
                        <==> IsEarlierCall(b, call) && WasRecordedAt(capabilities, rule, b)
  {
    forall b ensures b in RuleMatchIndex(capabilities, rule) <==> WasRecordedAt(capabilities, rule, b) {
      IndexedIsRecorded(capabilities, rule, b);
    }
  }

  lemma RecentIsMatch(capabilities: MatchResults, rule: string, call: Address)
    requires call.Call? && !WasRecordedAt(capabilities, rule, call)
    ensures MostRecent(RuleMatchIndex(capabilities, rule), call).Some? <==> HasMatchFor(capabilities, rule, call)
    ensures MostRecent(RuleMatchIndex(capabilities, rule), call).Some? ==>
              IsMatchFor(capabilities, rule, call, MostRecent(RuleMatchIndex(capabilities, rule), call).value)
  {
    var index := RuleMatchIndex(capabilities, rule);
    var recent, calls := MostRecent(index, call), CallsUpTo(index, call);
    CallsAreEarlier(capabilities, rule, call);
    if recent.Some? {
      var a :| IsLatest(a, calls) && index[a] == recent.value;
      LastMatchWins(Recorded(capabilities, rule), a);
      assert IsLatestCall(capabilities, rule, call, a);
      assert IsMatchFor(capabilities, rule, call, recent.value);
    }
    if HasMatchFor(capabilities, rule, call) {
      var m :| IsMatchFor(capabilities, rule, call, m);
      var b :| IsLatestCall(capabilities, rule, call, b) && IsLastAt(Recorded(capabilities, rule), b, m);
      assert b in calls;
    }
  }

  /** At one location a step splices in the match for it, if there is one. */
  lemma StepIsMatch(capabilities: MatchResults, rule: string, a: Address, byName: bool)
    ensures var steps := StepAt(RuleMatchIndex(capabilities, rule), rule, a, byName);
            && |steps| <= 1
            && (HasMatchFor(capabilities, rule, a) <==> exists t :: steps == [Splice(rule, t)])
            && (steps == [] || steps == [Missing(rule, a)] || HasMatchFor(capabilities, rule, a))
            && forall t | steps == [Splice(rule, t)] :: IsMatchFor(capabilities, rule, a, t)
  {
    IndexedIsRecorded(capabilities, rule, a);
    var index := RuleMatchIndex(capabilities, rule);
    if a in index {
      assert StepAt(index, rule, a, byName) == [Splice(rule, index[a])];
    } else if a.Call? {
      RecentIsMatch(capabilities, rule, a);
      if MostRecent(index, a).Some? {
        assert StepAt(index, rule, a, byName) == [Splice(rule, MostRecent(index, a).value)];
      }
    }
  }

  // ---- the steps follow the plan ----

  /** The steps splice in the matches for the listed places, one by one. */
  ghost predicate StepsFollow(capabilities: MatchResults, targets: seq<string>, plan: seq<(nat, Address)>,
                              steps: seq<Step>)
  {
    && |steps| == |plan|
    && forall i | 0 <= i < |plan| :: StepFollows(capabilities, targets, plan[i], steps[i])
  }

  ghost predicate StepFollows(capabilities: MatchResults, targets: seq<string>, e: (nat, Address), step: Step) {
    && e.0 < |targets| && step.Splice? && step.rule == targets[e.0]
    && IsMatchFor(capabilities, targets[e.0], e.1, step.tree)
  }

  /** The plan for target `k` alone: the listed addresses at which a match of the rule is due. */
  ghost predicate PlacesOf(capabilities: MatchResults, rule: string, k: nat, order: seq<Address>,
                           plan: seq<(nat, Address)>)
  {
    forall e: (nat, Address) :: e in plan <==> e.0 == k && e.1 in order && HasMatchFor(capabilities, rule, e.1)
  }

  /** The places of one target among the listed addresses. */
  lemma {:induction false} StepsOfOne(capabilities: MatchResults, targets: seq<string>, k: nat, order: seq<Address>,
                                      byName: bool)
    returns (plan: seq<(nat, Address)>)
    requires k < |targets| && IsAscending(order)
    requires NoneMissing(StepsAt(RuleMatchIndex(capabilities, targets[k]), targets[k], order, byName))
    ensures StepsFollow(capabilities, targets, plan,
                        StepsAt(RuleMatchIndex(capabilities, targets[k]), targets[k], order, byName))
    ensures PlacesOf(capabilities, targets[k], k, order, plan)
    ensures InOrder(plan)
  {
    plan := [];
    if order != [] {
      var init, a, rule := order[..|order| - 1], order[|order| - 1], targets[k];
      var index := RuleMatchIndex(capabilities, rule);
      var before, step := StepsAt(index, rule, init, byName), StepAt(index, rule, a, byName);
      assert StepsAt(index, rule, order, byName) == before + step;
      plan := StepsOfOne(capabilities, targets, k, init, byName);
      StepIsMatch(capabilities, rule, a, byName);
      assert forall s | s in step :: s in before + step;
      if HasMatchFor(capabilities, rule, a) {
        assert order == init + [a];
        plan := PlanGrows(capabilities, targets, k, init, a, plan, before, step);
      } else {
        assert Missing(rule, a) in [Missing(rule, a)];
        assert order == init + [a];
      }
    }
  }

  lemma PlanGrows(capabilities: MatchResults, targets: seq<string>, k: nat, init: seq<Address>, a: Address,
                  plan: seq<(nat, Address)>, before: seq<Step>, step: seq<Step>)
    returns (longer: seq<(nat, Address)>)
    requires k < |targets| && IsAscending(init + [a]) && StepsFollow(capabilities, targets, plan, before)
    requires exists t :: step == [Splice(targets[k], t)]
    requires forall t | step == [Splice(targets[k], t)] :: IsMatchFor(capabilities, targets[k], a, t)
    requires HasMatchFor(capabilities, targets[k], a)
    requires PlacesOf(capabilities, targets[k], k, init, plan)
    requires InOrder(plan)
    ensures StepsFollow(capabilities, targets, longer, before + step)
    ensures PlacesOf(capabilities, targets[k], k, init + [a], longer)
    ensures InOrder(longer)
  {
    longer := plan + [(k, a)];
    var order := init + [a];
    forall i | 0 <= i < |plan| ensures ComesBefore(plan[i], (k, a)) {
      assert plan[i] in plan;
      var x :| 0 <= x < |init| && init[x] == plan[i].1;
      assert order[x] == plan[i].1 && order[|init|] == a;
    }
  }

  ghost predicate PlacesUpTo(capabilities: MatchResults, targets: seq<string>, n: nat, at: set<Address>,
                             plan: seq<(nat, Address)>)
  {
    forall e: (nat, Address) :: e in plan <==> e.0 < n && IsDue(capabilities, targets, at, e)
  }

  /** Target by target: the places of the first `n`. */
  lemma {:induction false} StepsOfTargets(capabilities: MatchResults, targets: seq<string>, n: nat, at: set<Address>)
    returns (plan: seq<(nat, Address)>)
    requires n <= |targets|
    ensures StepsFollow(capabilities, targets, plan, NamespaceSteps(capabilities, targets[..n], Ascending(at)))
    ensures PlacesUpTo(capabilities, targets, n, at, plan)
    ensures InOrder(plan)
  {
    plan := [];
    if n > 0 {
      assert targets[..n][..n - 1] == targets[..n - 1];
      var before := StepsOfTargets(capabilities, targets, n - 1, at);
      var last := StepsOfMember(capabilities, targets, n - 1, at);
      plan := before + last;
      PlansJoin(capabilities, targets, n, at, Ascending(at), before, last);
      StepsJoin(capabilities, targets, before, NamespaceSteps(capabilities, targets[..n - 1], Ascending(at)), last,
                StepsOfMemberAt(capabilities, targets[n - 1], Ascending(at)));
    }
  }

  /** What one member of a namespace contributes. */
  ghost function StepsOfMemberAt(capabilities: MatchResults, rule: string, order: seq<Address>): seq<Step> {
    if rule in capabilities then StepsAt(RuleMatchIndex(capabilities, rule), rule, order, false) else []
  }

  lemma StepsOfMember(capabilities: MatchResults, targets: seq<string>, k: nat, at: set<Address>)
    returns (plan: seq<(nat, Address)>)
    requires k < |targets|
    ensures StepsFollow(capabilities, targets, plan, StepsOfMemberAt(capabilities, targets[k], Ascending(at)))
    ensures PlacesOf(capabilities, targets[k], k, Ascending(at), plan) && InOrder(plan)
  {
    plan := [];
    var rule := targets[k];
    if rule in capabilities {
      AscendingIsSorted(at);
      StepsAtFindAll(RuleMatchIndex(capabilities, rule), rule, Ascending(at), false);
      plan := StepsOfOne(capabilities, targets, k, Ascending(at), false);
    } else {
      assert Recorded(capabilities, rule) == [];
    }
  }

  lemma StepsJoin(capabilities: MatchResults, targets: seq<string>, before: seq<(nat, Address)>, steps: seq<Step>,
                  last: seq<(nat, Address)>, more: seq<Step>)
    requires StepsFollow(capabilities, targets, before, steps) && StepsFollow(capabilities, targets, last, more)
    ensures StepsFollow(capabilities, targets, before + last, steps + more)
  {
    var follows := (e, step) => StepFollows(capabilities, targets, e, step);
    PairsJoin(follows, before, steps, last, more);
  }

  lemma PairsJoin<A, B>(fits: (A, B) -> bool, a: seq<A>, b: seq<B>, a': seq<A>, b': seq<B>)
    requires |a| == |b| && forall i | 0 <= i < |a| :: fits(a[i], b[i])
    requires |a'| == |b'| && forall i | 0 <= i < |a'| :: fits(a'[i], b'[i])
    ensures forall i | 0 <= i < |a + a'| :: fits((a + a')[i], (b + b')[i])
  {
  }

  lemma PlansJoin(capabilities: MatchResults, targets: seq<string>, n: nat, at: set<Address>,
                  order: seq<Address>, before: seq<(nat, Address)>, last: seq<(nat, Address)>)
    requires 0 < n <= |targets|
    requires PlacesUpTo(capabilities, targets, n - 1, at, before)
    requires order == Ascending(at) && PlacesOf(capabilities, targets[n - 1], n - 1, order, last)
    ensures PlacesUpTo(capabilities, targets, n, at, before + last)
    ensures InOrder(before) && InOrder(last) ==> InOrder(before + last)
  {
    AscendingIsSorted(at);
    forall i, j | 0 <= i < |before| && 0 <= j < |last| ensures before[i].0 < last[j].0 {
      assert before[i] in before && last[j] in last;
    }
  }

  /** When none is missing, the steps of a reference splice in exactly what is due, in order. */
  lemma StepsArePlanned(rs: MatchingRuleSet, capabilities: MatchResults, name: string, at: set<Address>)
    returns (plan: seq<(nat, Address)>)
    requires NoneMissing(Steps(rs, capabilities, name, Ascending(at)))
    ensures IsPlan(capabilities, Targets(rs, name), at, plan)
    ensures StepsFollow(capabilities, Targets(rs, name), plan, Steps(rs, capabilities, name, Ascending(at)))
  {
    var targets := Targets(rs, name);
    if Named(rs.rules, name).Some? {
      AscendingIsSorted(at);
      plan := StepsOfOne(capabilities, targets, 0, Ascending(at), true);
    } else {
      plan := StepsOfTargets(capabilities, targets, |targets|, at);
      assert targets[..|targets|] == targets;
    }
  }

  // ---- the builder tells every match ----

  lemma RenderedIsShown(at: set<Address>)
    ensures ShowsAddresses(Rendered(Ascending(at)), at)
  {
    AscendingIsSorted(at);
    assert ListsAddresses(Ascending(at), at);
    assert AreWritten(Rendered(Ascending(at)), Ascending(at));
  }

  lemma CapturesAreShown(m: MatchResult)
    ensures RenderedCaptures(m).Keys == m.captures.Keys
    ensures forall k | k in m.captures :: ShowsAddresses(RenderedCaptures(m)[k], m.captures[k])
  {
    forall k | k in m.captures ensures ShowsAddresses(RenderedCaptures(m)[k], m.captures[k]) {
      RenderedIsShown(m.captures[k]);
    }
  }

  lemma NodeIsTold(rs: MatchingRuleSet, m: MatchResult, node: DocNode)
    requires NodeFromMatched(m.node, m.description) == Ok(node)
    ensures !IsSplicing(m) ==> NodeTells(rs, m, node)
    ensures IsSplicing(m) && ReferenceNode(rs, m.node.feature.name, node).Ok? ==>
              NodeTells(rs, m, ReferenceNode(rs, m.node.feature.name, node).value)
  {
  }

  /** `ds` are the document trees of `ms`, one by one. */
  ghost predicate EachTells(rs: MatchingRuleSet, capabilities: MatchResults, ms: seq<MatchResult>, ds: seq<Match>) {
    |ds| == |ms| && forall i | 0 <= i < |ms| :: Tells(rs, capabilities, ms[i], ds[i])
  }

  ghost predicate EachTellsSpliced(rs: MatchingRuleSet, capabilities: MatchResults, targets: seq<string>,
                                   plan: seq<(nat, Address)>, ds: seq<Match>)
  {
    |ds| == |plan| && forall i | 0 <= i < |plan| :: TellsSpliced(rs, capabilities, targets, plan[i], ds[i])
  }

  lemma OneMoreTells(rs: MatchingRuleSet, capabilities: MatchResults, ms: seq<MatchResult>, init: seq<Match>, d: Match)
    requires ms != [] && EachTells(rs, capabilities, ms[..|ms| - 1], init)
    requires Tells(rs, capabilities, ms[|ms| - 1], d)
    ensures EachTells(rs, capabilities, ms, init + [d])
  {
    var tells := (m, d) => Tells(rs, capabilities, m, d);
    PairsJoin(tells, ms[..|ms| - 1], init, [ms[|ms| - 1]], [d]);
    assert ms == ms[..|ms| - 1] + [ms[|ms| - 1]];
  }

  lemma OneMoreTellsSpliced(rs: MatchingRuleSet, capabilities: MatchResults, targets: seq<string>,
                            plan: seq<(nat, Address)>, init: seq<Match>, d: Match)
    requires plan != [] && EachTellsSpliced(rs, capabilities, targets, plan[..|plan| - 1], init)
    requires TellsSpliced(rs, capabilities, targets, plan[|plan| - 1], d)
    ensures EachTellsSpliced(rs, capabilities, targets, plan, init + [d])
  {
    var tells := (e, d) => TellsSpliced(rs, capabilities, targets, e, d);
    PairsJoin(tells, plan[..|plan| - 1], init, [plan[|plan| - 1]], [d]);
    assert plan == plan[..|plan| - 1] + [plan[|plan| - 1]];
  }

  lemma LeafIsTold(rs: MatchingRuleSet, capabilities: MatchResults, m: MatchResult, d: Match)
    requires NodeFromMatched(m.node, m.description) == Ok(d.node) && !IsSplicing(m) && d.success == m.success
    requires d.locations == RenderedLocations(m) && d.captures == RenderedCaptures(m)
    requires EachTells(rs, capabilities, m.children, d.children)
    ensures Tells(rs, capabilities, m, d)
  {
    RenderedIsShown(m.locations);
    CapturesAreShown(m);
    NodeIsTold(rs, m, d.node);
  }

  lemma ReferenceIsTold(rs: MatchingRuleSet, capabilities: MatchResults, m: MatchResult, d: Match, node: DocNode,
                        children: seq<Match>, plan: seq<(nat, Address)>, spliced: seq<Match>)
    requires NodeFromMatched(m.node, m.description) == Ok(node) && IsSplicing(m) && d.success == m.success
    requires ReferenceNode(rs, m.node.feature.name, node) == Ok(d.node)
    requires d.locations == RenderedLocations(m) && d.captures == RenderedCaptures(m)
    requires EachTells(rs, capabilities, m.children, children) && d.children == children + spliced
    requires IsPlan(capabilities, Targets(rs, m.node.feature.name), m.locations, plan)
    requires EachTellsSpliced(rs, capabilities, Targets(rs, m.node.feature.name), plan, spliced)
    ensures Tells(rs, capabilities, m, d)
  {
    RenderedIsShown(m.locations);
    CapturesAreShown(m);
    NodeIsTold(rs, m, node);
    assert forall i | 0 <= i < |children| :: d.children[i] == children[i];
    assert forall i | |children| <= i < |d.children| :: d.children[i] == spliced[i - |children|];
    assert SplicesFollow(rs, capabilities, Targets(rs, m.node.feature.name), plan, |children|, d);
  }

  lemma {:induction false} BuiltStepsAreSplices(rs: MatchingRuleSet, ranks: map<string, nat>,
                                                capabilities: MatchResults, steps: seq<Step>, rank: nat)
    requires Ranked(rs, ranks, capabilities) && StepsBelow(rs, ranks, steps, rank)
    requires BuildSteps(rs, ranks, capabilities, steps, rank).Ok?
    ensures NoneMissing(steps)
    decreases |steps|
  {
    if steps != [] {
      BuiltStepsAreSplices(rs, ranks, capabilities, steps[..|steps| - 1], rank);
    }
  }

  lemma BuiltStepsArePlanned(rs: MatchingRuleSet, ranks: map<string, nat>, capabilities: MatchResults, name: string,
                             at: set<Address>, rank: nat)
    returns (plan: seq<(nat, Address)>)
    requires Ranked(rs, ranks, capabilities)
    requires StepsBelow(rs, ranks, Steps(rs, capabilities, name, Ascending(at)), rank)
    requires BuildSteps(rs, ranks, capabilities, Steps(rs, capabilities, name, Ascending(at)), rank).Ok?
    ensures IsPlan(capabilities, Targets(rs, name), at, plan)
    ensures StepsFollow(capabilities, Targets(rs, name), plan, Steps(rs, capabilities, name, Ascending(at)))
  {
    BuiltStepsAreSplices(rs, ranks, capabilities, Steps(rs, capabilities, name, Ascending(at)), rank);
    plan := StepsArePlanned(rs, capabilities, name, at);
  }

  lemma SplicedTells(rs: MatchingRuleSet, capabilities: MatchResults, targets: seq<string>, e: (nat, Address),
                     step: Step, d: Match)
    requires StepFollows(capabilities, targets, e, step) && Tells(rs, capabilities, step.tree, d)
    ensures TellsSpliced(rs, capabilities, targets, e, d)
  {
  }

  /** Whatever the builder returns is the document tree of the match. */
  lemma {:induction false} BuildTells(rs: MatchingRuleSet, ranks: map<string, nat>, capabilities: MatchResults,
                                      m: MatchResult, rank: nat)
    requires Ranked(rs, ranks, capabilities) && CitesBelow(rs, ranks, m, rank)
    requires Build(rs, ranks, capabilities, m, rank).Ok?
    ensures Tells(rs, capabilities, m, Build(rs, ranks, capabilities, m, rank).value)
    decreases rank, 1, m
  {
    ChildrenCiteBelow(rs, ranks, m, rank);
    var d := Build(rs, ranks, capabilities, m, rank).value;
    var node := NodeFromMatched(m.node, m.description).value;
    var children := BuildList(rs, ranks, capabilities, m.children, rank).value;
    BuildListTells(rs, ranks, capabilities, m.children, rank);
    if IsReference(m) {
      var name := m.node.feature.name;
      assert name in CitedNames(m);
      StepsAreBelow(rs, ranks, capabilities, name, Ascending(m.locations), rank);
      var steps := Steps(rs, capabilities, name, Ascending(m.locations));
      var plan := BuiltStepsArePlanned(rs, ranks, capabilities, name, m.locations, rank);
      BuildStepsTell(rs, ranks, capabilities, Targets(rs, name), plan, steps, rank);
      ReferenceIsTold(rs, capabilities, m, d, node, children, plan,
                      BuildSteps(rs, ranks, capabilities, steps, rank).value);
    } else {
      LeafIsTold(rs, capabilities, m, d);
    }
  }

  lemma {:induction false} BuildListTells(rs: MatchingRuleSet, ranks: map<string, nat>, capabilities: MatchResults,
                                          ms: seq<MatchResult>, rank: nat)
    requires Ranked(rs, ranks, capabilities) && forall m | m in ms :: CitesBelow(rs, ranks, m, rank)
    requires BuildList(rs, ranks, capabilities, ms, rank).Ok?
    ensures EachTells(rs, capabilities, ms, BuildList(rs, ranks, capabilities, ms, rank).value)
    decreases rank, 1, ms
  {
    if ms != [] {
      var init := BuildList(rs, ranks, capabilities, ms[..|ms| - 1], rank);
      var last := Build(rs, ranks, capabilities, ms[|ms| - 1], rank);
      BuildListTells(rs, ranks, capabilities, ms[..|ms| - 1], rank);
      BuildTells(rs, ranks, capabilities, ms[|ms| - 1], rank);
      OneMoreTells(rs, capabilities, ms, init.value, last.value);
    }
  }

  lemma {:induction false} BuildStepsTell(rs: MatchingRuleSet, ranks: map<string, nat>, capabilities: MatchResults,
                                          targets: seq<string>, plan: seq<(nat, Address)>, steps: seq<Step>, rank: nat)
    requires Ranked(rs, ranks, capabilities) && StepsBelow(rs, ranks, steps, rank)
    requires BuildSteps(rs, ranks, capabilities, steps, rank).Ok? && StepsFollow(capabilities, targets, plan, steps)
    ensures EachTellsSpliced(rs, capabilities, targets, plan, BuildSteps(rs, ranks, capabilities, steps, rank).value)
    decreases rank, 0, |steps|
  {
    if steps != [] {
      var n := |steps| - 1;
      var init := BuildSteps(rs, ranks, capabilities, steps[..n], rank);
      BuildStepsTell(rs, ranks, capabilities, targets, plan[..n], steps[..n], rank);
      assert steps[n] in steps && StepFollows(capabilities, targets, plan[n], steps[n]);
      var last := Build(rs, ranks, capabilities, steps[n].tree, ranks[steps[n].rule]);
      BuildTells(rs, ranks, capabilities, steps[n].tree, ranks[steps[n].rule]);
      SplicedTells(rs, capabilities, targets, plan[n], steps[n], last.value);
      OneMoreTellsSpliced(rs, capabilities, targets, plan, init.value, last.value);
    }
  }

  // ---- a match has only one document tree ----

  ghost predicate IsSequence<T(!new)>(before: (T, T) -> bool, s: seq<T>) {
    && (forall x, y :: !(before(x, y) && before(y, x)))
    && forall i, j | 0 <= i < j < |s| :: before(s[i], s[j])
  }

  lemma BeforeTheLast<T(!new)>(before: (T, T) -> bool, init: seq<T>, last: T, x: T)
    requires IsSequence(before, init + [last])
    ensures IsSequence(before, init)
    ensures x in init <==> x in init + [last] && x != last
    ensures x in init ==> before(x, last)
  {
    var s := init + [last];
    forall i, j | 0 <= i < j < |init| ensures before(init[i], init[j]) {
      assert before(s[i], s[j]);
    }
    if x in init {
      var i :| 0 <= i < |init| && init[i] == x;
      assert before(s[i], s[|init|]);
    }
  }

  lemma {:induction false} SequenceIsUnique<T(!new)>(before: (T, T) -> bool, a: seq<T>, b: seq<T>)
    requires IsSequence(before, a) && IsSequence(before, b) && forall x :: x in a <==> x in b
    ensures a == b
  {
    assert (a != [] ==> a[0] in b) && (b != [] ==> b[0] in a);
    if a != [] {
      var initA, initB, x, y := a[..|a| - 1], b[..|b| - 1], a[|a| - 1], b[|b| - 1];
      assert a == initA + [x] && b == initB + [y];
      BeforeTheLast(before, initA, x, y);
      BeforeTheLast(before, initB, y, x);
      assert x == y;
      forall z ensures z in initA <==> z in initB {
        BeforeTheLast(before, initA, x, z);
        BeforeTheLast(before, initB, y, z);
      }
      SequenceIsUnique(before, initA, initB);
    }
  }

  lemma OrderIsUnique(a: seq<Address>, b: seq<Address>)
    requires IsAscending(a) && IsAscending(b) && forall x :: x in a <==> x in b
    ensures a == b
  {
    var before := (x: Address, y: Address) => AtMost(x, y) && x != y;
    forall x, y ensures !(before(x, y) && before(y, x)) {
      OrderIsTotal(x, y);
    }
    SequenceIsUnique(before, a, b);
  }

  lemma AddressesAreUnique(a: seq<Wire.RawAddress>, b: seq<Wire.RawAddress>, at: set<Address>)
    requires ShowsAddresses(a, at) && ShowsAddresses(b, at)
    ensures a == b
  {
    var x :| ListsAddresses(x, at) && AreWritten(a, x);
    var y :| ListsAddresses(y, at) && AreWritten(b, y);
    OrderIsUnique(x, y);
  }

  lemma LastMatchIsUnique(found: seq<(Address, MatchResult)>, a: Address, m: MatchResult, m': MatchResult)
    requires IsLastAt(found, a, m) && IsLastAt(found, a, m')
    ensures m == m'
  {
    var i :| 0 <= i < |found| && found[i] == (a, m) && NotAfter(found, i, a);
    var j :| 0 <= j < |found| && found[j] == (a, m') && NotAfter(found, j, a);
  }

  lemma MatchIsUnique(capabilities: MatchResults, rule: string, a: Address, m: MatchResult, m': MatchResult)
    requires IsMatchFor(capabilities, rule, a, m) && IsMatchFor(capabilities, rule, a, m')
    ensures m == m'
  {
    if WasRecordedAt(capabilities, rule, a) {
      LastMatchIsUnique(Recorded(capabilities, rule), a, m, m');
    } else {
      var b :| IsLatestCall(capabilities, rule, a, b) && IsLastAt(Recorded(capabilities, rule), b, m);
      var c :| IsLatestCall(capabilities, rule, a, c) && IsLastAt(Recorded(capabilities, rule), c, m');
      assert b == c;
      LastMatchIsUnique(Recorded(capabilities, rule), b, m, m');
    }
  }

  lemma PlanIsUnique(a: seq<(nat, Address)>, b: seq<(nat, Address)>)
    requires InOrder(a) && InOrder(b) && forall e :: e in a <==> e in b
    ensures a == b
  {
    forall x: (nat, Address), y: (nat, Address) ensures !(ComesBefore(x, y) && ComesBefore(y, x)) {
      OrderIsTotal(x.1, y.1);
    }
    SequenceIsUnique(ComesBefore, a, b);
  }

  lemma NodeIsUnique(rs: MatchingRuleSet, m: MatchResult, node: DocNode, node': DocNode)
    requires NodeTells(rs, m, node) && NodeTells(rs, m, node')
    ensures node == node'
  {
  }

  lemma ShownIsUnique(rs: MatchingRuleSet, capabilities: MatchResults, m: MatchResult, d: Match, d': Match)
    requires Tells(rs, capabilities, m, d) && Tells(rs, capabilities, m, d')
    ensures d.success == d'.success && d.node == d'.node && d.locations == d'.locations && d.captures == d'.captures
  {
    NodeIsUnique(rs, m, d.node, d'.node);
    forall k | k in m.captures ensures d.captures[k] == d'.captures[k] {
      AddressesAreUnique(d.captures[k], d'.captures[k], m.captures[k]);
    }
    assert d.captures == d'.captures;
    if m.success && (m.node.LeafNode? || m.node.RangeNode?) {
      AddressesAreUnique(d.locations, d'.locations, m.locations);
    }
  }

  /** A match has only one document tree: nothing about the tree is left open. */
  lemma {:induction false} TellsIsUnique(rs: MatchingRuleSet, capabilities: MatchResults, m: MatchResult, d: Match,
                                         d': Match)
    requires Tells(rs, capabilities, m, d) && Tells(rs, capabilities, m, d')
    ensures d == d'
    decreases d, 1
  {
    ShownIsUnique(rs, capabilities, m, d, d');
    var n := |m.children|;
    forall i | 0 <= i < n ensures d.children[i] == d'.children[i] {
      TellsIsUnique(rs, capabilities, m.children[i], d.children[i], d'.children[i]);
    }
    if IsSplicing(m) {
      SplicedIsUnique(rs, capabilities, m, d, d');
    }
    assert d.children == d'.children;
  }

  lemma {:induction false} SplicedIsUnique(rs: MatchingRuleSet, capabilities: MatchResults, m: MatchResult, d: Match,
                                           d': Match)
    requires Tells(rs, capabilities, m, d) && Tells(rs, capabilities, m, d') && IsSplicing(m)
    ensures |d.children| == |d'.children|
    ensures forall i | |m.children| <= i < |d.children| :: d.children[i] == d'.children[i]
    decreases d, 0
  {
    var targets, n := Targets(rs, m.node.feature.name), |m.children|;
    var plan :| IsPlan(capabilities, targets, m.locations, plan)
                && SplicesFollow(rs, capabilities, targets, plan, n, d);
    var plan' :| IsPlan(capabilities, targets, m.locations, plan')
                 && SplicesFollow(rs, capabilities, targets, plan', n, d');
    PlanIsUnique(plan, plan');
    forall i | n <= i < |d.children| ensures d.children[i] == d'.children[i] {
      assert TellsSpliced(rs, capabilities, targets, plan[i - n], d.children[i]);
      assert TellsSpliced(rs, capabilities, targets, plan'[i - n], d'.children[i]);
      OneSplicedIsUnique(rs, capabilities, targets, plan[i - n], d.children[i], d'.children[i]);
    }
  }

  lemma {:induction false} OneSplicedIsUnique(rs: MatchingRuleSet, capabilities: MatchResults, targets: seq<string>,
                                              e: (nat, Address), d: Match, d': Match)
    requires TellsSpliced(rs, capabilities, targets, e, d) && TellsSpliced(rs, capabilities, targets, e, d')
    ensures d == d'
    decreases d, 2
  {
    var m :| IsMatchFor(capabilities, targets[e.0], e.1, m) && Tells(rs, capabilities, m, d);
    var m' :| IsMatchFor(capabilities, targets[e.0], e.1, m') && Tells(rs, capabilities, m', d');
    MatchIsUnique(capabilities, targets[e.0], e.1, m, m');
    TellsIsUnique(rs, capabilities, m, d, d');
  }
}
