/** capa-x/src/capabilities/dynamic_analysis.rs: the drivers for calls and threads. */
module DynamicDriver {
  import opened Base
  import opened Features
  import opened FeatureSets
  import opened Rules
  import opened Engine
  import opened RuleIndex
  import opened StaticScopes
  import opened UnitContents
  import opened MatchingRuleSets
  import opened Promotion
  import opened StaticDriver
  import opened Evidence
  import opened SpanWindow
  import opened SpanMatcher
  import opened SpanEvidence

  /** A call of a thread, with nothing below it. */
  predicate IsCall(u: Unit) {
    u.scope.CallScope? && u.parts == [] && u.addr.Call?
  }

  method FindCallCapabilities(rs: MatchingRuleSet, call: Unit, globals: seq<Feature>) returns (r: UnitOutcome)
    requires Usable(rs) && IsCall(call)
    ensures var p := Program(rs.byScope, globals);
            p.Valid() ==>
              r.Ok? && Equivalent(r.value.0, Scan(p, call).features) && r.value.1 == MatchesOf(p, call, CallScope)
  {
    ghost var p := Program(rs.byScope, globals);
    var features := new FeatureMap();
    Seed(features, call.features, globals);
    LeafIsBefore(p, call);
    var matches := MatchAndPromote(rs, p, call, CallScope, call.addr, features);
    if matches.Err? { return Err(matches.error); }
    r := Ok((features.View(), matches.value));
  }

  // ---- what a call hands to the span matcher ----

  function GlobalSet(p: Program): set<Feature> {
    set f | f in p.globals
  }

  /** The call's own features are at the call's address, and none of them is a `match` feature. */
  predicate IsLocated(p: Program, call: Unit) {
    IsCall(call) && (forall e | e in call.features :: e.0 == call.addr)
    && forall e | e in Entries(p, call) :: !e.1.MatchedRule?
  }

  lemma EntriesOfCall(p: Program, call: Unit, f: Feature)
    requires IsLocated(p, call)
    ensures EntrySites(Entries(p, call), f) <= {call.addr, NoAddress}
    ensures NoAddress in EntrySites(Entries(p, call), f) <==> f in p.globals
    ensures HasFeature(Entries(p, call), f) <==> EntrySites(Entries(p, call), f) != {}
    ensures f in p.globals ==> HasFeature(Entries(p, call), f)
    ensures f.MatchedRule? ==> !HasFeature(Entries(p, call), f)
  {
    var entries := Entries(p, call);
    forall e | e in entries ensures e in call.features || (e.0 == NoAddress && e.1 in p.globals) {
    }
    if f in p.globals {
      var i :| 0 <= i < |p.globals| && p.globals[i] == f;
      assert entries[|call.features| + i] == (NoAddress, f);
      assert (NoAddress, f) in entries;
    }
    if HasFeature(entries, f) {
      var e :| e in entries && e.1 == f;
      assert e.0 in EntrySites(entries, f);
    }
  }

  lemma CallHas(p: Program, call: Unit, f: Feature)
    requires p.Valid() && IsLocated(p, call)
    ensures var fs := Scan(p, call).features;
            var published := f.MatchedRule? && PublishedAt(p, f.name, call);
            && (f in fs.locs <==> HasFeature(Entries(p, call), f) || published)
            && Locations(fs.locs, f) == EntrySites(Entries(p, call), f) + (if published then {call.addr} else {})
  {
    assert MergeParts(p, call.parts) == EMPTY;
    assert Before(p, call) == InsertAll(EMPTY, Entries(p, call));
    InsertAllContents(EMPTY, Entries(p, call), f);
    ScanContents(p, CallScope, Before(p, call), call.addr, f);
  }

  lemma CallFeature(p: Program, call: Unit, f: Feature)
    requires p.Valid() && IsLocated(p, call)
    ensures var locs := Scan(p, call).features.locs;
            && (f in locs ==>
                  locs[f] != {} && locs[f] <= {call.addr, NoAddress} && (NoAddress in locs[f] <==> f in p.globals))
            && (f in p.globals ==> f in locs)
  {
    CallHas(p, call, f);
    EntriesOfCall(p, call, f);
  }

  /** A call's features are at the call, and without an address exactly the global ones: what the window relies on. */
  lemma CallIsFed(p: Program, call: Unit)
    requires p.Valid() && IsLocated(p, call)
    ensures OfCall(Scan(p, call).features, call.addr, GlobalSet(p))
  {
    var locs := Scan(p, call).features.locs;
    forall f
      ensures f in locs ==>
                locs[f] != {} && locs[f] <= {call.addr, NoAddress} && (NoAddress in locs[f] <==> f in GlobalSet(p))
      ensures f in GlobalSet(p) ==> f in locs
    {
      CallFeature(p, call, f);
    }
  }

  lemma EquivalentIsFed(a: FeatureSet, b: FeatureSet, addr: Address, globals: set<Feature>)
    requires Equivalent(a, b) && OfCall(b, addr, globals)
    ensures OfCall(a, addr, globals)
  {
  }

  /** The calls of a thread, in the order of their ids, with their features at their own addresses. */
  ghost predicate AreThreadCalls(p: Program, calls: seq<Unit>) {
    && (forall i | 0 <= i < |calls| :: IsLocated(p, calls[i]))
    && forall i, j | 0 <= i < j < |calls| ::
         SameThread(calls[i].addr, calls[j].addr) && calls[i].addr.id < calls[j].addr.id
  }

  /** Span `t` was matched on `current`, which agrees with the window that ends with it. */
  ghost predicate MatchedOn(p: Program, spans: seq<Span>, t: nat, current: FeatureSet)
    requires p.Valid() && t < |spans|
  {
    AgreesWithWindow(spans[..t + 1], current)
    && spans[t].found == ScanAt(p, SpanOfCallsScope, current, spans[t].addr).results
  }

  /** Span `t` is that of call `t`, matched on its window. */
  ghost predicate IsSpanOf(p: Program, calls: seq<Unit>, spans: seq<Span>, t: nat)
    requires p.Valid() && t < |spans| && t < |calls|
  {
    && spans[t].addr == calls[t].addr
    && Equivalent(spans[t].features, Scan(p, calls[t]).features)
    && exists current :: MatchedOn(p, spans, t, current)
  }

  /** One span for each of the first calls. */
  ghost predicate AreSpansOf(p: Program, calls: seq<Unit>, spans: seq<Span>)
    requires p.Valid()
  {
    |spans| <= |calls| && forall t | 0 <= t < |spans| :: IsSpanOf(p, calls, spans, t)
  }

  lemma NextSpan(p: Program, calls: seq<Unit>, spans: seq<Span>, span: Span, current: FeatureSet)
    requires p.Valid() && |spans| < |calls| && AreSpansOf(p, calls, spans)
    requires span.addr == calls[|spans|].addr && Equivalent(span.features, Scan(p, calls[|spans|]).features)
    requires AgreesWithWindow(spans + [span], current)
    requires span.found == ScanAt(p, SpanOfCallsScope, current, span.addr).results
    ensures AreSpansOf(p, calls, spans + [span])
  {
    forall t | 0 <= t < |spans| ensures IsSpanOf(p, calls, spans + [span], t) {
      EarlierSpanStays(p, calls, spans, span, t);
    }
    var longer := spans + [span];
    assert longer[..|spans| + 1] == longer && longer[|spans|] == span;
    assert MatchedOn(p, longer, |spans|, current);
  }

  lemma EarlierSpanStays(p: Program, calls: seq<Unit>, spans: seq<Span>, span: Span, t: nat)
    requires p.Valid() && t < |spans| < |calls| && IsSpanOf(p, calls, spans, t)
    ensures IsSpanOf(p, calls, spans + [span], t)
  {
    var longer := spans + [span];
    var current :| MatchedOn(p, spans, t, current);
    assert longer[..t + 1] == spans[..t + 1] && longer[t] == spans[t];
    assert MatchedOn(p, longer, t, current);
  }

  /** The spans of a thread's calls are fed as the window relies on, and recorded as the evidence relies on. */
  lemma SpansAreThread(p: Program, calls: seq<Unit>, spans: seq<Span>)
    requires p.Valid() && AreSpansOf(p, calls, spans) && AreThreadCalls(p, calls)
    ensures IsThread(spans) && WellFed(spans, GlobalSet(p))
  {
    forall t | 0 <= t < |spans|
      ensures spans[t].addr == calls[t].addr && OfCall(spans[t].features, spans[t].addr, GlobalSet(p))
    {
      assert IsSpanOf(p, calls, spans, t);
      CallIsFed(p, calls[t]);
      EquivalentIsFed(spans[t].features, Scan(p, calls[t]).features, calls[t].addr, GlobalSet(p));
    }
    forall t, name | 0 <= t < |spans| && name in spans[t].found ensures FoundAt(spans[t], name) {
      assert IsSpanOf(p, calls, spans, t);
      var current :| MatchedOn(p, spans, t, current);
      SpanIsFoundAt(p, current, spans[t], name);
    }
  }

  /** What the scans of the calls left. */
  ghost function LeftAt(p: Program, calls: seq<Unit>): seq<map<Feature, set<Address>>>
    requires p.Valid()
  {
    seq(|calls|, k requires 0 <= k < |calls| => Scan(p, calls[k]).features.locs)
  }

  /** `locs` has what the last 20 have, each feature wherever any of them has it. */
  ghost predicate HasLast(locs: map<Feature, set<Address>>, all: seq<map<Feature, set<Address>>>) {
    forall f ::
      && (f in locs <==> exists k: nat | k < |all| <= k + 20 :: f in all[k])
      && forall a :: a in Locations(locs, f) <==> exists k: nat | k < |all| <= k + 20 :: a in Locations(all[k], f)
  }

  lemma UnionHasLast(all: seq<map<Feature, set<Address>>>, window: seq<FeatureSet>, from: nat, current: FeatureSet)
    requires IsUnion(current, window)
    requires from == (if |all| < 20 then 0 else |all| - 20) && |window| == |all| - from
    requires forall i | 0 <= i < |window| :: window[i].locs == all[from + i]
    ensures HasLast(current.locs, all)
  {
    forall f
      ensures f in current.locs <==> exists k: nat | k < |all| <= k + 20 :: f in all[k]
      ensures forall a :: a in Locations(current.locs, f)
                          <==> exists k: nat | k < |all| <= k + 20 :: a in Locations(all[k], f)
    {
      assert HasWindow(current.locs, window, f);
      forall k: nat | k < |all| <= k + 20 ensures window[k - from].locs == all[k] {
      }
    }
  }

  lemma SpanHolds(p: Program, calls: seq<Unit>, spans: seq<Span>, k: nat)
    requires p.Valid() && AreSpansOf(p, calls, spans) && k < |spans|
    ensures spans[k].features.locs == Scan(p, calls[k]).features.locs
  {
    assert IsSpanOf(p, calls, spans, k);
  }

  lemma WindowHasLast(spans: seq<Span>, all: seq<map<Feature, set<Address>>>, current: FeatureSet)
    requires |spans| == |all| && forall k | 0 <= k < |all| :: spans[k].features.locs == all[k]
    requires IsUnion(current, Window(spans))
    ensures HasLast(current.locs, all)
  {
    var from := if |all| < 20 then 0 else |all| - 20;
    forall i | 0 <= i < |all| - from ensures Window(spans)[i] == spans[from + i].features {
    }
    UnionHasLast(all, Window(spans), from, current);
  }

  lemma SpansHold(p: Program, calls: seq<Unit>, spans: seq<Span>, n: nat)
    requires p.Valid() && AreSpansOf(p, calls, spans) && n <= |spans|
    ensures forall k | 0 <= k < n :: spans[..n][k].features.locs == LeftAt(p, calls[..n])[k]
  {
    forall k | 0 <= k < n ensures spans[..n][k].features.locs == LeftAt(p, calls[..n])[k] {
      SpanHolds(p, calls, spans, k);
    }
  }

  lemma SpanHasLast(p: Program, calls: seq<Unit>, spans: seq<Span>, t: nat, current: FeatureSet)
    requires p.Valid() && AreSpansOf(p, calls, spans) && t < |spans| && IsUnion(current, Window(spans[..t + 1]))
    ensures HasLast(current.locs, LeftAt(p, calls[..t + 1]))
  {
    SpansHold(p, calls, spans, t + 1);
    WindowHasLast(spans[..t + 1], LeftAt(p, calls[..t + 1]), current);
  }

  /** Each span was matched on exactly the features and locations of its last 20 calls. */
  lemma SpanSeesItsWindow(p: Program, calls: seq<Unit>, spans: seq<Span>, t: nat) returns (current: FeatureSet)
    requires p.Valid() && AreSpansOf(p, calls, spans) && AreThreadCalls(p, calls) && t < |spans|
    ensures IsUnion(current, Window(spans[..t + 1])) && HasLast(current.locs, LeftAt(p, calls[..t + 1]))
    ensures spans[t].found == ScanAt(p, SpanOfCallsScope, current, spans[t].addr).results
  {
    SpansAreThread(p, calls, spans);
    assert IsSpanOf(p, calls, spans, t);
    current :| MatchedOn(p, spans, t, current);
    PrefixIsFed(spans, t + 1, GlobalSet(p));
    SpanHasLast(p, calls, spans, t, current);
  }

  lemma PrefixIsFed(spans: seq<Span>, n: nat, globals: set<Feature>)
    requires n <= |spans| && WellFed(spans, globals)
    ensures WellFed(spans[..n], globals)
  {
  }

  lemma SpanIsFoundAt(p: Program, current: FeatureSet, span: Span, name: string)
    requires p.Valid() && name in span.found
    requires span.found == ScanAt(p, SpanOfCallsScope, current, span.addr).results
    ensures FoundAt(span, name)
  {
    var rules := p.RulesAt(SpanOfCallsScope);
    EvaluableScanSucceeds(rules, |rules|, current, span.addr);
    ScanRecordsHere(rules, |rules|, current, span.addr, name);
    assert Recorded(span.found, name) == span.found[name];
  }

  // ---- the thread driver ----

  datatype ThreadCapabilities = ThreadCapabilities(
    features: FeatureSet,
    threads: MatchResults,
    spans: MatchResults,
    calls: MatchResults)

  /** What the driver reports of a thread, given the spans of its calls. */
  ghost predicate ReportsThread(rs: MatchingRuleSet, p: Program, thread: Unit, spans: seq<Span>, r: ThreadCapabilities)
    requires p.Valid()
  {
    && Equivalent(r.features, Scan(p, thread).features)
    && r.threads == Scan(p, thread).results
    && r.calls == MatchesOfParts(p, thread.parts, CallScope)
    && r.spans == RecordedMatches(rs, spans)
    && |spans| == |thread.parts| && AreSpansOf(p, thread.parts, spans)
  }

  /** One call: match it, take its features over, and let the span matcher have it. */
  method NextCall(rs: MatchingRuleSet, call: Unit, globals: seq<Feature>, features: FeatureMap,
                  matcher: SpanOfCallsMatcher)
    returns (r: UnitOutcome, ghost span: Span)
    requires Usable(rs) && IsCall(call) && features.Valid() && matcher.Valid() && matcher.rs == rs
    modifies features, matcher
    ensures r.Ok? ==> features.Valid() && features.View() == Merge(old(features.View()), r.value.0)
    ensures r.Ok? ==> matcher.Valid() && matcher.spans == old(matcher.spans) + [span] && span.addr == call.addr
    ensures var p := Program(rs.byScope, globals);
            p.Valid() ==>
              && r.Ok? && r.value.1 == MatchesOf(p, call, CallScope)
              && Equivalent(r.value.0, Scan(p, call).features) && span.features == r.value.0
              && span.found == ScanAt(p, SpanOfCallsScope, matcher.currentFeatures, call.addr).results
  {
    ghost var p := Program(rs.byScope, globals);
    r := FindCallCapabilities(rs, call, globals);
    if r.Err? { return r, Span(call.addr, EMPTY, map[]); }
    features.Absorb(r.value.0);
    var next: Outcome<(), EngineError>;
    next, span := matcher.Next(call.addr, r.value.0, p);
    if next.Err? { return Err(next.error), span; }
  }

  lemma WindowAgrees(matcher: SpanOfCallsMatcher)
    requires matcher.Valid()
    ensures AgreesWithWindow(matcher.spans, matcher.currentFeatures)
    ensures matcher.matches == RecordedMatches(matcher.rs, matcher.spans)
  {
  }

  /** Where the thread driver stands after the first `i` calls. */
  ghost predicate ThreadSoFar(p: Program, calls: seq<Unit>, i: nat, features: FeatureSet, callMatches: MatchResults,
                              spans: seq<Span>)
    requires i <= |calls|
  {
    && MergesParts(p, calls[..i], features)
    && CollectsParts(p, calls[..i], CallScope, callMatches)
    && |spans| == i
    && (p.Valid() ==> AreSpansOf(p, calls, spans))
  }

  lemma NextInThread(p: Program, calls: seq<Unit>, i: nat, features: FeatureSet, callMatches: MatchResults,
                     spans: seq<Span>, found: FeatureSet, matches: MatchResults, span: Span, current: FeatureSet)
    requires i < |calls| && ThreadSoFar(p, calls, i, features, callMatches, spans)
             && AgreesWithWindow(spans + [span], current)
    requires p.Valid() ==>
               && matches == MatchesOf(p, calls[i], CallScope) && Equivalent(found, Scan(p, calls[i]).features)
               && span.addr == calls[i].addr && span.features == found
               && span.found == ScanAt(p, SpanOfCallsScope, current, calls[i].addr).results
    ensures ThreadSoFar(p, calls, i + 1, Merge(features, found), ExtendMatches(callMatches, matches), spans + [span])
  {
    MergesNextPart(p, calls, i, features, found);
    CollectsNextPart(p, calls, i, CallScope, callMatches, matches);
    if p.Valid() {
      NextSpan(p, calls, spans, span, current);
    }
  }

  /** One turn of the thread driver's loop. */
  method ThreadStep(rs: MatchingRuleSet, calls: seq<Unit>, i: nat, globals: seq<Feature>, features: FeatureMap,
                    matcher: SpanOfCallsMatcher, callMatches: MatchResults)
    returns (r: Outcome<MatchResults, EngineError>, ghost spans: seq<Span>)
    requires Usable(rs) && i < |calls| && IsCall(calls[i]) && features.Valid() && matcher.Valid() && matcher.rs == rs
    requires ThreadSoFar(Program(rs.byScope, globals), calls, i, features.View(), callMatches, matcher.spans)
    modifies features, matcher
    ensures Program(rs.byScope, globals).Valid() ==> r.Ok?
    ensures r.Ok? ==>
              && features.Valid() && matcher.Valid() && matcher.spans == spans
              && ThreadSoFar(Program(rs.byScope, globals), calls, i + 1, features.View(), r.value, spans)
  {
    ghost var p := Program(rs.byScope, globals);
    ghost var before, earlier := features.View(), matcher.spans;
    ghost var span: Span;
    var found: UnitOutcome;
    found, span := NextCall(rs, calls[i], globals, features, matcher);
    spans := earlier + [span];
    if found.Err? { return Err(found.error), spans; }
    WindowAgrees(matcher);
    NextInThread(p, calls, i, before, callMatches, earlier, found.value.0, found.value.1, span,
                 matcher.currentFeatures);
    var all := ExtendWith(callMatches, found.value.1);
    r := Ok(all);
  }

  lemma NoCallsYet(p: Program, calls: seq<Unit>)
    ensures ThreadSoFar(p, calls, 0, EMPTY, map[], [])
  {
    NoPartsYet(p, calls);
  }

  /** The loop over the calls of a thread; `features` gathers what they leave. */
  method WalkCalls(rs: MatchingRuleSet, calls: seq<Unit>, globals: seq<Feature>, features: FeatureMap)
    returns (r: Outcome<(MatchResults, MatchResults), EngineError>, ghost spans: seq<Span>)
    requires Usable(rs) && (forall call | call in calls :: IsCall(call)) && features.Valid() && features.View() == EMPTY
    modifies features
    ensures Program(rs.byScope, globals).Valid() ==> r.Ok?
    ensures r.Ok? ==>
              && features.Valid() && r.value.1 == RecordedMatches(rs, spans)
              && ThreadSoFar(Program(rs.byScope, globals), calls, |calls|, features.View(), r.value.0, spans)
  {
    ghost var p := Program(rs.byScope, globals);
    var callMatches: MatchResults := map[];
    var matcher := new SpanOfCallsMatcher(rs);
    spans := [];
    NoCallsYet(p, calls);
    for i := 0 to |calls|
      invariant fresh(matcher) && features.Valid()
      invariant matcher.Valid() && matcher.rs == rs && matcher.spans == spans
      invariant ThreadSoFar(p, calls, i, features.View(), callMatches, spans)
    {
      var next: Outcome<MatchResults, EngineError>;
      next, spans := ThreadStep(rs, calls, i, globals, features, matcher, callMatches);
      if next.Err? { return Err(next.error), spans; }
      callMatches := next.value;
    }
    WindowAgrees(matcher);
    r := Ok((callMatches, matcher.matches));
  }

  method FindThreadCapabilities(rs: MatchingRuleSet, thread: Unit, globals: seq<Feature>)
    returns (r: Outcome<ThreadCapabilities, EngineError>)
    requires Usable(rs) && thread.scope.ThreadScope? && forall call | call in thread.parts :: IsCall(call)
    ensures var p := Program(rs.byScope, globals);
            p.Valid() ==> r.Ok? && exists spans :: ReportsThread(rs, p, thread, spans, r.value)
  {
    var features := new FeatureMap();
    var walked: Outcome<(MatchResults, MatchResults), EngineError>;
    ghost var spans: seq<Span>;
    walked, spans := WalkCalls(rs, thread.parts, globals, features);
    if walked.Err? { return Err(walked.error); }
    assert thread.parts[..|thread.parts|] == thread.parts;
    r := FinishThread(rs, thread, globals, features, walked.value.0, walked.value.1, spans);
  }

  method FinishThread(rs: MatchingRuleSet, thread: Unit, globals: seq<Feature>, features: FeatureMap,
                      callMatches: MatchResults, spanMatches: MatchResults, ghost spans: seq<Span>)
    returns (r: Outcome<ThreadCapabilities, EngineError>)
    requires Usable(rs) && thread.scope.ThreadScope? && features.Valid()
    requires MergesParts(Program(rs.byScope, globals), thread.parts, features.View())
    requires CollectsParts(Program(rs.byScope, globals), thread.parts, CallScope, callMatches)
    requires spanMatches == RecordedMatches(rs, spans)
    requires |spans| == |thread.parts|
    requires Program(rs.byScope, globals).Valid() ==> AreSpansOf(Program(rs.byScope, globals), thread.parts, spans)
    modifies features
    ensures var p := Program(rs.byScope, globals);
            p.Valid() ==> r.Ok? && ReportsThread(rs, p, thread, spans, r.value)
  {
    ghost var p := Program(rs.byScope, globals);
    SeededIsBefore(p, thread, features.View());
    Seed(features, thread.features, globals);
    var matches := MatchAndPromote(rs, p, thread, ThreadScope, thread.addr, features);
    if matches.Err? { return Err(matches.error); }
    r := Ok(ThreadCapabilities(features.View(), matches.value, spanMatches, callMatches));
  }

  /**
   Span suppression loses no evidence: of a thread that was analysed, a span rule that matched at some call is always
   found by the builder at that call, in a match recorded in the same run.
   */
  lemma ThreadReferenceIsFound(rs: MatchingRuleSet, p: Program, thread: Unit, spans: seq<Span>, r: ThreadCapabilities,
                               t: nat, name: string, index: MatchIndex)
    requires p.Valid() && ReportsThread(rs, p, thread, spans, r) && AreThreadCalls(p, thread.parts)
    requires t < |spans| && MatchesAt(spans, t, name)
    requires spans[t].addr.Call? ==> ExtendsThread(index, RuleMatchIndex(r.spans, name), spans[t].addr)
    ensures spans[t].addr.Call? && Lookup(index, spans[t].addr).Some?
    ensures exists s: nat :: RecordedInRun(rs, spans, s, t, name, Lookup(index, spans[t].addr).value)
  {
    SpansAreThread(p, thread.parts, spans);
    SpanReferenceIsFound(rs, spans, t, name, index);
  }
}
