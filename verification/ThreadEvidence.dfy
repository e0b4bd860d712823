/**
 The evidence that the analysis of a thread records is closed, although most matches of span rules are suppressed: for
 every reference by name in a recorded tree, at every location, the document builder has a match to splice in.
 */
module ThreadEvidence {
  import opened Features
  import opened FeatureSets
  import opened Rules
  import opened Engine
  import opened RuleIndex
  import opened RuleGraph
  import opened StaticScopes
  import opened UnitContents
  import opened MatchingRules
  import opened MatchingRuleSets
  import opened Evidence
  import opened StaticEvidence
  import opened SpanWindow
  import opened SpanMatcher
  import opened SpanEvidence
  import opened DynamicDriver

  // ---- what it means that a reference is met ----

  /** At `a` the builder finds a match: one recorded there, or at a call the most recent one in the thread. */
  ghost predicate IsFoundAt(index: MatchIndex, a: Address) {
    a in index || (a.Call? && MostRecent(index, a).Some?)
  }

  ghost predicate NodeIsFound(rs: MatchingRuleSet, capabilities: MatchResults, m: MatchResult) {
    IsReference(m) && Named(rs.rules, m.node.feature.name).Some? ==>
      forall a | a in m.locations :: IsFoundAt(RuleMatchIndex(capabilities, m.node.feature.name), a)
  }

  /** Every reference by name in the tree is met at each of its locations. */
  ghost predicate TreeIsFound(rs: MatchingRuleSet, capabilities: MatchResults, m: MatchResult)
    decreases m
  {
    NodeIsFound(rs, capabilities, m) && forall c | c in m.children :: TreeIsFound(rs, capabilities, c)
  }

  /** A rule whose `match` feature is in `locs` has a scope, and a match to be found at each location. */
  ghost predicate NameIsFound(rs: MatchingRuleSet, capabilities: MatchResults, locs: map<Feature, set<Address>>,
                              name: string)
    requires Named(rs.rules, name).Some?
  {
    && SubscopeOf(Named(rs.rules, name).value).Some?
    && forall a | a in Locations(locs, MatchedRule(name)) :: IsFoundAt(RuleMatchIndex(capabilities, name), a)
  }

  ghost predicate NamesAreFound(rs: MatchingRuleSet, capabilities: MatchResults, locs: map<Feature, set<Address>>) {
    forall name | Named(rs.rules, name).Some? && MatchedRule(name) in locs :: NameIsFound(rs, capabilities, locs, name)
  }

  lemma {:induction false} GroundedIsFound(rs: MatchingRuleSet, capabilities: MatchResults, references: set<string>,
                                           locs: map<Feature, set<Address>>, m: MatchResult)
    requires Grounded(references, locs, m) && NamesAreFound(rs, capabilities, locs)
    ensures TreeIsFound(rs, capabilities, m) && TreeIsSound(rs, capabilities, m)
    decreases m
  {
    if IsReference(m) && Named(rs.rules, m.node.feature.name).Some? {
      assert NameIsFound(rs, capabilities, locs, m.node.feature.name);
    }
    forall c | c in m.children ensures TreeIsFound(rs, capabilities, c) && TreeIsSound(rs, capabilities, c) {
      GroundedIsFound(rs, capabilities, references, locs, c);
    }
  }

  lemma OnlyTheRuleHasTheName(rules: seq<Rule>, rule: Rule, name: string)
    requires UniqueNames(rules) && NoNameIsANamespace(rules) && Named(rules, name).Some?
    requires rule in rules && name in PublishedNames(rule)
    ensures rule == Named(rules, name).value
  {
    var named := Named(rules, name).value;
    assert rule.namespace.Some? ==> named.name !in RuleNamespaces(rule.namespace.value);
    assert rule.name == named.name;
  }

  lemma OnlyTheRulePublishesIt(all: seq<Rule>, here: seq<Rule>, results: MatchResults, name: string)
    requires UniqueNames(all) && NoNameIsANamespace(all) && Named(all, name).Some?
             && forall rule | rule in here :: rule in all
    requires PublishedBy(here, results, name)
    ensures name in results && Named(all, name).value in here
  {
    var rule :| rule in here && name in PublishedNames(rule) && rule.name in results;
    OnlyTheRuleHasTheName(all, rule, name);
  }

  lemma ScopeIsDrawn(rs: MatchingRuleSet, p: Program, scope: Scope)
    requires RulesAreReady(rs, p)
    ensures forall rule | rule in p.RulesAt(scope) :: rule in rs.rules && rule.scopes.Contains(scope)
  {
  }

  /** Of the names that a scan publishes, a rule's own can only have been published by that rule. */
  lemma PublishedIsNamed(rs: MatchingRuleSet, p: Program, scope: Scope, results: MatchResults, name: string)
    requires RulesAreReady(rs, p) && Named(rs.rules, name).Some? && PublishedBy(p.RulesAt(scope), results, name)
    ensures name in results && Named(rs.rules, name).value.scopes.Contains(scope)
    ensures SubscopeOf(Named(rs.rules, name).value).Some?
  {
    var all, here := rs.rules, p.RulesAt(scope);
    ScopeIsDrawn(rs, p, scope);
    OnlyTheRulePublishesIt(all, here, results, name);
    var rule := Named(all, name).value;
    assert rule in here;
  }

  // ---- what a thread's analysis records ----

  /** A thread was analysed: its calls in order, with `spans` the spans that end with them, and with result `r`. */
  ghost predicate Analyzed(rs: MatchingRuleSet, p: Program, thread: Unit, spans: seq<Span>, r: ThreadCapabilities) {
    && RulesAreReady(rs, p)
    && thread.scope.ThreadScope? && AreThreadCalls(p, thread.parts)
    && (forall e | e in Entries(p, thread) :: !e.1.MatchedRule?)
    && ReportsThread(rs, p, thread, spans, r)
  }

  predicate RecordedIn(r: ThreadCapabilities, name: string, e: (Address, MatchResult)) {
    e in Recorded(r.calls, name) || e in Recorded(r.spans, name) || e in Recorded(r.threads, name)
  }

  /** All that the thread recorded is among `capabilities`, which may list more, as of other threads. */
  ghost predicate Includes(capabilities: MatchResults, r: ThreadCapabilities) {
    forall name, e | RecordedIn(r, name, e) :: e in Recorded(capabilities, name)
  }

  lemma IncludedIsIndexed(capabilities: MatchResults, r: ThreadCapabilities, name: string, e: (Address, MatchResult))
    requires Includes(capabilities, r) && RecordedIn(r, name, e)
    ensures e.0 in RuleMatchIndex(capabilities, name)
  {
    LastMatchWins(Recorded(capabilities, name), e.0);
  }

  lemma {:induction false} CallIsRecorded(p: Program, calls: seq<Unit>, call: Unit, name: string,
                                          e: (Address, MatchResult))
    requires p.Valid() && call in calls && call.scope.CallScope? && e in Recorded(Scan(p, call).results, name)
    ensures e in Recorded(MatchesOfParts(p, calls, CallScope), name)
  {
    if call != calls[|calls| - 1] {
      CallIsRecorded(p, calls[..|calls| - 1], call, name, e);
    }
  }

  /** A match of the scan at a unit is recorded at the unit's address. */
  lemma HereIsRecorded(p: Program, u: Unit, name: string) returns (e: (Address, MatchResult))
    requires p.Valid() && name in Scan(p, u).results
    ensures e in Recorded(Scan(p, u).results, name) && e.0 == u.addr
  {
    var rules := p.RulesAt(u.scope);
    EvaluableScanSucceeds(rules, |rules|, Before(p, u), u.addr);
    ScanRecordsHere(rules, |rules|, Before(p, u), u.addr, name);
    e := Scan(p, u).results[name][0];
    assert e in Recorded(Scan(p, u).results, name);
  }

  lemma CallIsFound(rs: MatchingRuleSet, p: Program, thread: Unit, spans: seq<Span>, r: ThreadCapabilities,
                    capabilities: MatchResults, call: Unit, name: string)
    requires Analyzed(rs, p, thread, spans, r) && Includes(capabilities, r)
    requires call in thread.parts && name in Scan(p, call).results
    ensures IsFoundAt(RuleMatchIndex(capabilities, name), call.addr)
  {
    var e := HereIsRecorded(p, call, name);
    var i :| 0 <= i < |thread.parts| && thread.parts[i] == call;
    assert IsLocated(p, call);
    CallIsRecorded(p, thread.parts, call, name, e);
    assert RecordedIn(r, name, e);
    IncludedIsIndexed(capabilities, r, name, e);
  }

  lemma SpanIsFound(rs: MatchingRuleSet, p: Program, thread: Unit, spans: seq<Span>, r: ThreadCapabilities,
                    capabilities: MatchResults, t: nat, name: string)
    requires Analyzed(rs, p, thread, spans, r) && Includes(capabilities, r) && t < |spans| && MatchesAt(spans, t, name)
    ensures IsFoundAt(RuleMatchIndex(capabilities, name), spans[t].addr)
  {
    var own, index := RuleMatchIndex(r.spans, name), RuleMatchIndex(capabilities, name);
    ThreadReferenceIsFound(rs, p, thread, spans, r, t, name, own);
    forall a | a in own ensures a in index {
      LastMatchWins(Recorded(r.spans, name), a);
      var e :| e in Recorded(r.spans, name) && e.0 == a;
      assert RecordedIn(r, name, e);
      IncludedIsIndexed(capabilities, r, name, e);
    }
    assert CallsUpTo(own, spans[t].addr) <= CallsUpTo(index, spans[t].addr);
  }

  // ---- references at a call ----

  lemma CallSees(p: Program, call: Unit, name: string)
    requires p.Valid() && IsLocated(p, call)
    ensures MatchedRule(name) in Scan(p, call).features.locs <==> PublishedAt(p, name, call)
    ensures Locations(Scan(p, call).features.locs, MatchedRule(name))
            == if PublishedAt(p, name, call) then {call.addr} else {}
  {
    CallHas(p, call, MatchedRule(name));
    EntriesOfCall(p, call, MatchedRule(name));
  }

  lemma CallNamesAreFound(rs: MatchingRuleSet, p: Program, thread: Unit, spans: seq<Span>, r: ThreadCapabilities,
                          capabilities: MatchResults, call: Unit)
    requires Analyzed(rs, p, thread, spans, r) && Includes(capabilities, r) && call in thread.parts
    ensures NamesAreFound(rs, capabilities, Scan(p, call).features.locs)
  {
    var locs := Scan(p, call).features.locs;
    var i :| 0 <= i < |thread.parts| && thread.parts[i] == call;
    forall name | Named(rs.rules, name).Some? && MatchedRule(name) in locs
      ensures NameIsFound(rs, capabilities, locs, name)
    {
      CallSees(p, call, name);
      CallPublicationIsFound(rs, p, thread, spans, r, capabilities, call, name);
    }
  }

  // ---- references to what the calls published ----

  ghost predicate ByCalls(p: Program, calls: seq<Unit>, name: string)
    requires p.Valid()
  {
    exists call | call in calls :: PublishedAt(p, name, call)
  }

  ghost predicate ByCallsAt(p: Program, calls: seq<Unit>, name: string, a: Address)
    requires p.Valid()
  {
    exists call | call in calls :: PublishedAt(p, name, call) && a == call.addr
  }

  /** The `match` feature in `locs` was published by the scans of calls, at those calls. */
  ghost predicate NamedByCalls(p: Program, calls: seq<Unit>, name: string, locs: map<Feature, set<Address>>)
    requires p.Valid()
  {
    && (MatchedRule(name) in locs ==> ByCalls(p, calls, name))
    && forall a | a in Locations(locs, MatchedRule(name)) :: ByCallsAt(p, calls, name, a)
  }

  /** A rule that the scan of a call published is found there. */
  lemma CallPublicationIsFound(rs: MatchingRuleSet, p: Program, thread: Unit, spans: seq<Span>, r: ThreadCapabilities,
                               capabilities: MatchResults, call: Unit, name: string)
    requires Analyzed(rs, p, thread, spans, r) && Includes(capabilities, r) && Named(rs.rules, name).Some?
    requires call in thread.parts && PublishedAt(p, name, call)
    ensures SubscopeOf(Named(rs.rules, name).value).Some? && IsFoundAt(RuleMatchIndex(capabilities, name), call.addr)
  {
    PublishedIsNamed(rs, p, call.scope, Scan(p, call).results, name);
    CallIsFound(rs, p, thread, spans, r, capabilities, call, name);
  }

  lemma NamedByCallsIsFound(rs: MatchingRuleSet, p: Program, thread: Unit, spans: seq<Span>, r: ThreadCapabilities,
                            capabilities: MatchResults, name: string)
    requires Analyzed(rs, p, thread, spans, r) && Includes(capabilities, r) && Named(rs.rules, name).Some?
    ensures ByCalls(p, thread.parts, name) ==> SubscopeOf(Named(rs.rules, name).value).Some?
    ensures forall a | ByCallsAt(p, thread.parts, name, a) :: IsFoundAt(RuleMatchIndex(capabilities, name), a)
  {
    if ByCalls(p, thread.parts, name) {
      var call :| call in thread.parts && PublishedAt(p, name, call);
      CallPublicationIsFound(rs, p, thread, spans, r, capabilities, call, name);
    }
    forall a | ByCallsAt(p, thread.parts, name, a) ensures IsFoundAt(RuleMatchIndex(capabilities, name), a) {
      var call :| call in thread.parts && PublishedAt(p, name, call) && a == call.addr;
      CallPublicationIsFound(rs, p, thread, spans, r, capabilities, call, name);
    }
  }

  // ---- references at a span ----

  /** A `match` feature in the union of a window was published by the scan of one of the calls, at that call. */
  lemma WindowNames(p: Program, calls: seq<Unit>, spans: seq<Span>, t: nat, current: FeatureSet, name: string)
    requires p.Valid() && AreSpansOf(p, calls, spans) && AreThreadCalls(p, calls) && t < |spans|
    requires IsUnion(current, Window(spans[..t + 1]))
    ensures NamedByCalls(p, calls, name, current.locs)
  {
    var window := Window(spans[..t + 1]);
    forall i | 0 <= i < |window| ensures NamedByCalls(p, calls, name, window[i].locs) {
      WindowedCall(p, calls, spans, t, i, name);
    }
    UnionNames(p, calls, window, current, name);
  }

  lemma UnionNames(p: Program, calls: seq<Unit>, window: seq<FeatureSet>, current: FeatureSet, name: string)
    requires p.Valid() && IsUnion(current, window)
    requires forall i | 0 <= i < |window| :: NamedByCalls(p, calls, name, window[i].locs)
    ensures NamedByCalls(p, calls, name, current.locs)
  {
    assert HasWindow(current.locs, window, MatchedRule(name));
  }

  lemma WindowedCall(p: Program, calls: seq<Unit>, spans: seq<Span>, t: nat, i: nat, name: string)
    requires p.Valid() && AreSpansOf(p, calls, spans) && AreThreadCalls(p, calls) && t < |spans|
    requires i < |Window(spans[..t + 1])|
    ensures NamedByCalls(p, calls, name, Window(spans[..t + 1])[i].locs)
  {
    var seen := spans[..t + 1];
    var k := i + (if |seen| > SPAN_SIZE then |seen| - SPAN_SIZE else 0);
    assert Window(seen)[i] == spans[k].features;
    assert IsSpanOf(p, calls, spans, k);
    CallNames(p, calls, k, name, spans[k].features);
  }

  lemma CallNames(p: Program, calls: seq<Unit>, k: nat, name: string, fs: FeatureSet)
    requires p.Valid() && k < |calls| && IsLocated(p, calls[k]) && Equivalent(fs, Scan(p, calls[k]).features)
    ensures NamedByCalls(p, calls, name, fs.locs)
  {
    CallSees(p, calls[k], name);
    assert calls[k] in calls;
  }

  lemma SpanNamesAreFound(rs: MatchingRuleSet, p: Program, thread: Unit, spans: seq<Span>, r: ThreadCapabilities,
                          capabilities: MatchResults, t: nat, current: FeatureSet)
    requires Analyzed(rs, p, thread, spans, r) && Includes(capabilities, r) && t < |spans|
    requires IsUnion(current, Window(spans[..t + 1]))
    requires spans[t].found == ScanAt(p, SpanOfCallsScope, current, spans[t].addr).results
    ensures NamesAreFound(rs, capabilities, ScanAt(p, SpanOfCallsScope, current, spans[t].addr).features.locs)
  {
    var locs := ScanAt(p, SpanOfCallsScope, current, spans[t].addr).features.locs;
    forall name | Named(rs.rules, name).Some? && MatchedRule(name) in locs
      ensures NameIsFound(rs, capabilities, locs, name)
    {
      SpanNameIsFound(rs, p, thread, spans, r, capabilities, t, current, name);
    }
  }

  lemma SpanNameIsFound(rs: MatchingRuleSet, p: Program, thread: Unit, spans: seq<Span>, r: ThreadCapabilities,
                        capabilities: MatchResults, t: nat, current: FeatureSet, name: string)
    requires Analyzed(rs, p, thread, spans, r) && Includes(capabilities, r) && t < |spans|
    requires IsUnion(current, Window(spans[..t + 1]))
    requires spans[t].found == ScanAt(p, SpanOfCallsScope, current, spans[t].addr).results
    requires Named(rs.rules, name).Some?
    requires MatchedRule(name) in ScanAt(p, SpanOfCallsScope, current, spans[t].addr).features.locs
    ensures NameIsFound(rs, capabilities, ScanAt(p, SpanOfCallsScope, current, spans[t].addr).features.locs, name)
  {
    ScanContents(p, SpanOfCallsScope, current, spans[t].addr, MatchedRule(name));
    WindowNames(p, thread.parts, spans, t, current, name);
    NamedByCallsIsFound(rs, p, thread, spans, r, capabilities, name);
    if PublishedBy(p.RulesAt(SpanOfCallsScope), spans[t].found, name) {
      PublishedIsNamed(rs, p, SpanOfCallsScope, spans[t].found, name);
      SpanIsFound(rs, p, thread, spans, r, capabilities, t, name);
    }
  }

  // ---- references at the thread ----

  lemma MergedNames(p: Program, calls: seq<Unit>, name: string, a: FeatureSet, b: FeatureSet)
    requires p.Valid() && NamedByCalls(p, calls, name, a.locs) && NamedByCalls(p, calls, name, b.locs)
    ensures NamedByCalls(p, calls, name, Merge(a, b).locs)
  {
    MergeContentsAt(a, b, MatchedRule(name));
  }

  lemma LastIsMerged(p: Program, calls: seq<Unit>, n: nat)
    requires p.Valid() && 0 < n <= |calls|
    ensures MergeParts(p, calls[..n]) == Merge(MergeParts(p, calls[..n - 1]), Scan(p, calls[n - 1]).features)
  {
    assert calls[..n][..n - 1] == calls[..n - 1];
  }

  lemma {:induction false} MergedCallNames(p: Program, calls: seq<Unit>, n: nat, name: string)
    requires p.Valid() && n <= |calls| && forall call | call in calls :: IsLocated(p, call)
    ensures NamedByCalls(p, calls, name, MergeParts(p, calls[..n]).locs)
  {
    if n > 0 {
      MergedCallNames(p, calls, n - 1, name);
      CallNames(p, calls, n - 1, name, Scan(p, calls[n - 1]).features);
      LastIsMerged(p, calls, n);
      MergedNames(p, calls, name, MergeParts(p, calls[..n - 1]), Scan(p, calls[n - 1]).features);
    }
  }

  /** Before the thread's own rules are matched, it has the `match` features that its calls published. */
  lemma BeforeThread(p: Program, thread: Unit, name: string)
    requires p.Valid() && thread.scope.ThreadScope? && AreThreadCalls(p, thread.parts)
    requires forall e | e in Entries(p, thread) :: !e.1.MatchedRule?
    ensures NamedByCalls(p, thread.parts, name, Before(p, thread).locs)
  {
    var calls := thread.parts;
    InsertAllContents(MergeParts(p, calls), Entries(p, thread), MatchedRule(name));
    forall call | call in calls ensures IsLocated(p, call) {
      var i :| 0 <= i < |calls| && calls[i] == call;
    }
    MergedCallNames(p, calls, |calls|, name);
    assert calls[..|calls|] == calls;
  }

  lemma ThreadIsFound(rs: MatchingRuleSet, p: Program, thread: Unit, spans: seq<Span>, r: ThreadCapabilities,
                      capabilities: MatchResults, name: string)
    requires Analyzed(rs, p, thread, spans, r) && Includes(capabilities, r) && name in Scan(p, thread).results
    ensures IsFoundAt(RuleMatchIndex(capabilities, name), thread.addr)
  {
    var e := HereIsRecorded(p, thread, name);
    assert RecordedIn(r, name, e);
    IncludedIsIndexed(capabilities, r, name, e);
  }

  lemma ThreadNameIsFound(rs: MatchingRuleSet, p: Program, thread: Unit, spans: seq<Span>, r: ThreadCapabilities,
                          capabilities: MatchResults, name: string)
    requires Analyzed(rs, p, thread, spans, r) && Includes(capabilities, r) && Named(rs.rules, name).Some?
    requires MatchedRule(name) in Scan(p, thread).features.locs
    ensures NameIsFound(rs, capabilities, Scan(p, thread).features.locs, name)
  {
    ScanContents(p, ThreadScope, Before(p, thread), thread.addr, MatchedRule(name));
    BeforeThread(p, thread, name);
    NamedByCallsIsFound(rs, p, thread, spans, r, capabilities, name);
    if PublishedBy(p.RulesAt(ThreadScope), Scan(p, thread).results, name) {
      PublishedIsNamed(rs, p, ThreadScope, Scan(p, thread).results, name);
      ThreadIsFound(rs, p, thread, spans, r, capabilities, name);
    }
  }

  // ---- every recorded tree ----

  /** The features that a recorded tree is grounded in are those of a scan at a call, at a span, or of the thread. */
  lemma RecordHasGrounds(rs: MatchingRuleSet, p: Program, thread: Unit, spans: seq<Span>, r: ThreadCapabilities,
                         capabilities: MatchResults, name: string, e: (Address, MatchResult))
    returns (locs: map<Feature, set<Address>>)
    requires Analyzed(rs, p, thread, spans, r) && Includes(capabilities, r) && RecordedIn(r, name, e)
    ensures HasGrounds(rs.rules, locs, name, e.1) && NamesAreFound(rs, capabilities, locs)
  {
    if e in Recorded(r.calls, name) {
      var call := CallOrigin(p, thread.parts, name, e);
      UnitRecordIsGrounded(rs, p, call, name, e);
      CallNamesAreFound(rs, p, thread, spans, r, capabilities, call);
      locs := Scan(p, call).features.locs;
    } else if e in Recorded(r.spans, name) {
      var t, current := SpanOrigin(rs, p, thread, spans, r, name, e);
      ScanRecordIsGrounded(rs, p, SpanOfCallsScope, current, spans[t].addr, name, e);
      SpanNamesAreFound(rs, p, thread, spans, r, capabilities, t, current);
      locs := ScanAt(p, SpanOfCallsScope, current, spans[t].addr).features.locs;
    } else {
      UnitRecordIsGrounded(rs, p, thread, name, e);
      locs := Scan(p, thread).features.locs;
      forall n | Named(rs.rules, n).Some? && MatchedRule(n) in locs ensures NameIsFound(rs, capabilities, locs, n) {
        ThreadNameIsFound(rs, p, thread, spans, r, capabilities, n);
      }
    }
  }

  lemma CallOrigin(p: Program, calls: seq<Unit>, name: string, e: (Address, MatchResult)) returns (call: Unit)
    requires p.Valid() && (forall call | call in calls :: IsCall(call))
             && e in Recorded(MatchesOfParts(p, calls, CallScope), name)
    ensures call in calls && e in Recorded(Scan(p, call).results, name)
  {
    PartsRecordOrigin(p, calls, CallScope, name, e);
    call :| call in UnitsIn(calls) && e in Recorded(Scan(p, call).results, name);
    UnitsInParts(calls);
    var part :| part in calls && call in Units(part);
    assert Units(part) == {part};
  }

  /** The span whose scan recorded a match, and the features of its window. */
  lemma SpanOrigin(rs: MatchingRuleSet, p: Program, thread: Unit, spans: seq<Span>, r: ThreadCapabilities, name: string,
                   e: (Address, MatchResult))
    returns (t: nat, current: FeatureSet)
    requires Analyzed(rs, p, thread, spans, r) && e in Recorded(r.spans, name)
    ensures RecordedFrom(rs, spans, t, name, e) && IsUnion(current, Window(spans[..t + 1]))
    ensures spans[t].found == ScanAt(p, SpanOfCallsScope, current, spans[t].addr).results
    ensures e in Recorded(spans[t].found, name)
  {
    RecordsComeFromCalls(rs, spans, name, e);
    t :| RecordedFrom(rs, spans, t, name, e);
    current := SpanSeesItsWindow(p, thread.parts, spans, t);
  }

  /**
   Suppression loses no evidence. Of an analysed thread, every reference by name in every tree that was recorded, at a
   call, at a span or at the thread, has a match to splice in at each of its locations, and none makes the builder fail.
   */
  lemma ThreadEvidenceIsFound(rs: MatchingRuleSet, p: Program, thread: Unit, spans: seq<Span>, r: ThreadCapabilities,
                              capabilities: MatchResults, name: string, e: (Address, MatchResult))
    requires Analyzed(rs, p, thread, spans, r) && Includes(capabilities, r) && RecordedIn(r, name, e)
    ensures TreeIsFound(rs, capabilities, e.1) && TreeIsSound(rs, capabilities, e.1)
  {
    var locs := RecordHasGrounds(rs, p, thread, spans, r, capabilities, name, e);
    var rule :| rule in rs.rules && rule.name == name && Grounded(References(rule.body), locs, e.1);
    GroundedIsFound(rs, capabilities, References(rule.body), locs, e.1);
  }

  /** Everything that the analysis of one thread recorded. */
  function AllOf(r: ThreadCapabilities): MatchResults {
    ExtendMatches(ExtendMatches(ExtendMatches(map[], r.threads), r.spans), r.calls)
  }

  /** The builder gives a document tree for every match that a thread recorded: it ends, and misses nothing. */
  lemma ThreadDocumentIsBuilt(rs: MatchingRuleSet, p: Program, thread: Unit, spans: seq<Span>, r: ThreadCapabilities,
                              order: seq<string>)
    requires Analyzed(rs, p, thread, spans, r) && ListsInOrder(GraphOf(rs.rules, rs.namespaces), order)
    ensures Ranked(rs, RanksOf(order), AllOf(r))
    ensures EveryRecordIsBuilt(rs, RanksOf(order), AllOf(r))
  {
    AllIsIncluded(r);
    forall name, e | e in Recorded(AllOf(r), name)
      ensures RecordIsRanked(rs, RanksOf(order), name, e) && TreeIsSound(rs, AllOf(r), e.1)
    {
      ThreadRecordIsReady(rs, p, thread, spans, r, AllOf(r), order, name, e);
    }
    SoundEvidenceIsBuilt(rs, RanksOf(order), AllOf(r));
  }

  lemma AllIsIncluded(r: ThreadCapabilities)
    ensures Includes(AllOf(r), r) && forall name, e | e in Recorded(AllOf(r), name) :: RecordedIn(r, name, e)
  {
  }

  lemma ThreadRecordIsReady(rs: MatchingRuleSet, p: Program, thread: Unit, spans: seq<Span>, r: ThreadCapabilities,
                            capabilities: MatchResults, order: seq<string>, name: string, e: (Address, MatchResult))
    requires Analyzed(rs, p, thread, spans, r) && ListsInOrder(GraphOf(rs.rules, rs.namespaces), order)
    requires Includes(capabilities, r) && RecordedIn(r, name, e)
    ensures RecordIsRanked(rs, RanksOf(order), name, e) && TreeIsSound(rs, capabilities, e.1)
  {
    var locs := RecordHasGrounds(rs, p, thread, spans, r, capabilities, name, e);
    GroundsAreRanked(rs, p, order, locs, name, e);
    ThreadEvidenceIsFound(rs, p, thread, spans, r, capabilities, name, e);
  }

  // ---- references between span rules show evidence of the same run ----

  /** `m` is a node of the tree. */
  ghost predicate IsNodeOf(m: MatchResult, tree: MatchResult)
    decreases tree
  {
    m == tree || exists c | c in tree.children :: IsNodeOf(m, c)
  }

  lemma {:induction false} NodeIsGroundedToo(references: set<string>, locs: map<Feature, set<Address>>, m: MatchResult,
                                             tree: MatchResult)
    requires Grounded(references, locs, tree) && IsNodeOf(m, tree)
    ensures NodeIsGrounded(references, locs, m)
    decreases tree
  {
    if m != tree {
      var c :| c in tree.children && IsNodeOf(m, c);
      NodeIsGroundedToo(references, locs, m, c);
    }
  }

  /** The calls themselves do not bring along the `match` feature of a rule that is not matched at calls. */
  lemma WindowLacksName(rs: MatchingRuleSet, p: Program, calls: seq<Unit>, spans: seq<Span>, t: nat,
                        current: FeatureSet, name: string)
    requires RulesAreReady(rs, p) && AreSpansOf(p, calls, spans) && AreThreadCalls(p, calls) && t < |spans|
    requires IsUnion(current, Window(spans[..t + 1]))
    requires Named(rs.rules, name).Some? && !Named(rs.rules, name).value.scopes.Contains(CallScope)
    ensures MatchedRule(name) !in current.locs
  {
    WindowNames(p, calls, spans, t, current, name);
    forall call | call in calls ensures !PublishedAt(p, name, call) {
      var i :| 0 <= i < |calls| && calls[i] == call;
      assert IsLocated(p, call);
      if PublishedAt(p, name, call) {
        PublishedIsNamed(rs, p, CallScope, Scan(p, call).results, name);
      }
    }
  }

  /** Within a scan, a reference to such a rule is to one that matched at this very span. */
  lemma SpanReferenceMatches(rs: MatchingRuleSet, p: Program, current: FeatureSet, addr: Address, name: string,
                             references: set<string>, m: MatchResult)
    requires RulesAreReady(rs, p) && Named(rs.rules, name).Some? && MatchedRule(name) !in current.locs
    requires NodeIsGrounded(references, ScanAt(p, SpanOfCallsScope, current, addr).features.locs, m)
    requires IsReference(m) && m.node.feature.name == name
    ensures name in ScanAt(p, SpanOfCallsScope, current, addr).results && m.locations <= {addr}
  {
    forall rule | rule in p.RulesAt(SpanOfCallsScope) && name in PublishedNames(rule) ensures rule.name == name {
      OnlyTheRuleHasTheName(rs.rules, rule, name);
    }
    SpanReferenceIsOwn(p, current, addr, name);
  }

  /** A reference in a tree that the scan of a span recorded was seen in that scan. */
  lemma SpanNodeIsGrounded(rs: MatchingRuleSet, p: Program, current: FeatureSet, addr: Address, user: string,
                           e: (Address, MatchResult), m: MatchResult)
    returns (references: set<string>)
    requires RulesAreReady(rs, p) && e in Recorded(ScanAt(p, SpanOfCallsScope, current, addr).results, user)
    requires IsNodeOf(m, e.1)
    ensures NodeIsGrounded(references, ScanAt(p, SpanOfCallsScope, current, addr).features.locs, m)
  {
    ScanRecordIsGrounded(rs, p, SpanOfCallsScope, current, addr, user, e);
    var locs := ScanAt(p, SpanOfCallsScope, current, addr).features.locs;
    var rule :| rule in rs.rules && rule.name == user && Grounded(References(rule.body), locs, e.1);
    references := References(rule.body);
    NodeIsGroundedToo(references, locs, m, e.1);
  }

  /**
   Take a tree recorded for a span, and a reference in it to a rule matched at spans and not at calls. Each location of
   the reference is the call `t` at which the tree was recorded; the builder looks a match up there and finds one, which
   was recorded in the run of the referenced rule that call `t` belongs to.
   */
  lemma SpanReferencesAreOfTheRun(rs: MatchingRuleSet, p: Program, thread: Unit, spans: seq<Span>,
                                  r: ThreadCapabilities, user: string, e: (Address, MatchResult), m: MatchResult,
                                  a: Address, index: MatchIndex)
    returns (t: nat)
    requires Analyzed(rs, p, thread, spans, r) && e in Recorded(r.spans, user)
    requires IsNodeOf(m, e.1) && IsReference(m) && a in m.locations
    requires Named(rs.rules, m.node.feature.name).Some?
    requires !Named(rs.rules, m.node.feature.name).value.scopes.Contains(CallScope)
    requires a.Call? ==> ExtendsThread(index, RuleMatchIndex(r.spans, m.node.feature.name), a)
    ensures RecordedFrom(rs, spans, t, user, e) && a == spans[t].addr && a.Call?
    ensures Lookup(index, a).Some?
    ensures exists s: nat :: RecordedInRun(rs, spans, s, t, m.node.feature.name, Lookup(index, a).value)
  {
    var name, current := m.node.feature.name, EMPTY;
    t, current := SpanOrigin(rs, p, thread, spans, r, user, e);
    var references := SpanNodeIsGrounded(rs, p, current, spans[t].addr, user, e, m);
    WindowLacksName(rs, p, thread.parts, spans, t, current, name);
    SpanReferenceMatches(rs, p, current, spans[t].addr, name, references, m);
    ThreadReferenceIsFound(rs, p, thread, spans, r, t, name, index);
  }
}
