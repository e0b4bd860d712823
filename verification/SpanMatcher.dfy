/**
 capa-x/src/capabilities/dynamic_analysis.rs: matching spans of calls. A rule that matches at one call and again at the
 next is recorded once, unless a rule that depends on it has only just matched.
 */
module SpanMatcher {
  import opened Base
  import opened Features
  import opened FeatureSets
  import opened Rules
  import opened Engine
  import opened RuleGraph
  import opened StaticScopes
  import opened MatchingRules
  import opened MatchingRuleSets
  import opened Promotion
  import opened StaticDriver
  import opened SpanWindow

  /** One call of a thread: its address, its features, and what matched in the span that ends with it. */
  datatype Span = Span(addr: Address, features: FeatureSet, found: MatchResults)

  function RuleDependencies(rs: MatchingRuleSet, name: string): set<string> {
    var rule := Named(rs.rules, name);
    if rule.Some? then Dependencies(rule.value.body, rs.namespaces) else {}
  }

  // ---- what is recorded, as a function of what matched ----

  /** `name` is recorded: it did not match at the call before, or a rule that depends on it newly matches now. */
  predicate Keeps(rs: MatchingRuleSet, before: set<string>, now: set<string>, name: string) {
    name !in before || exists n | n in now :: n !in before && name in RuleDependencies(rs, n)
  }

  /** What of `found` is recorded after `before` matched. */
  function Fresh(rs: MatchingRuleSet, before: set<string>, found: MatchResults): MatchResults {
    map name | name in found && Keeps(rs, before, found.Keys, name) :: found[name]
  }

  /** The names that matched just before call `t`. */
  function NamesBefore(spans: seq<Span>, t: nat): set<string>
    requires t <= |spans|
  {
    if t == 0 then {} else spans[t - 1].found.Keys
  }

  function RecordedMatches(rs: MatchingRuleSet, spans: seq<Span>): MatchResults {
    if spans == [] then map[]
    else
      var t := |spans| - 1;
      ExtendMatches(RecordedMatches(rs, spans[..t]), Fresh(rs, NamesBefore(spans, t), spans[t].found))
  }

  /** The trailing window of at most 20 calls. */
  function Window(spans: seq<Span>): seq<FeatureSet> {
    var from := if |spans| > SPAN_SIZE then |spans| - SPAN_SIZE else 0;
    AllFeatures(spans[from..])
  }

  function AllFeatures(spans: seq<Span>): (r: seq<FeatureSet>)
    ensures |r| == |spans| && forall i | 0 <= i < |spans| :: r[i] == spans[i].features
  {
    if spans == [] then [] else AllFeatures(spans[..|spans| - 1]) + [spans[|spans| - 1].features]
  }

  function WindowAddresses(spans: seq<Span>): seq<Address> {
    var from := if |spans| > SPAN_SIZE then |spans| - SPAN_SIZE else 0;
    seq(|spans| - from, i requires 0 <= i < |spans| - from => spans[from + i].addr)
  }

  /** Every call has its own address, its features there, and the global features without an address. */
  ghost predicate WellFed(spans: seq<Span>, globals: set<Feature>) {
    && (forall i | 0 <= i < |spans| :: spans[i].addr != NoAddress && OfCall(spans[i].features, spans[i].addr, globals))
    && forall i, j | 0 <= i < j < |spans| :: spans[i].addr != spans[j].addr
  }

  lemma WindowIsOfCalls(spans: seq<Span>, globals: set<Feature>)
    requires WellFed(spans, globals)
    ensures AreCalls(Window(spans), WindowAddresses(spans), globals)
  {
  }

  lemma WindowSlides(spans: seq<Span>, span: Span)
    ensures Window(spans + [span])
            == (if |spans| >= SPAN_SIZE then Window(spans)[1..] else Window(spans)) + [span.features]
    ensures |spans| >= SPAN_SIZE ==> |Window(spans)| == SPAN_SIZE
    ensures |Window(spans)| == SPAN_SIZE ==> |spans| >= SPAN_SIZE
  {
  }

  // ---- the matcher ----

  /** The union is right for every set of globals that the calls were fed with. */
  ghost predicate AgreesWithWindow(spans: seq<Span>, current: FeatureSet) {
    forall globals :: WellFed(spans, globals) ==> IsUnion(current, Window(spans))
  }

  /** What the fields say of the calls seen: the window and its union, the last matches, and all that was recorded. */
  ghost predicate State(rs: MatchingRuleSet, spans: seq<Span>, window: seq<FeatureSet>, current: FeatureSet,
                        last: set<string>, matches: MatchResults)
  {
    && window == Window(spans)
    && AgreesWithWindow(spans, current)
    && last == NamesBefore(spans, |spans|)
    && matches == RecordedMatches(rs, spans)
  }

  /** The fields when the window has moved on to the next call and nothing has been matched yet. */
  ghost predicate SlidState(rs: MatchingRuleSet, spans: seq<Span>, addr: Address, features: FeatureSet,
                            window: seq<FeatureSet>, current: FeatureSet, last: set<string>, matches: MatchResults)
  {
    && window == Window(spans + [Span(addr, features, map[])])
    && AgreesWithWindow(spans + [Span(addr, features, map[])], current)
    && last == NamesBefore(spans, |spans|)
    && matches == RecordedMatches(rs, spans)
  }

  /** The window and its union after one more call. */
  function SlidWindow(window: seq<FeatureSet>, next: FeatureSet): seq<FeatureSet> {
    (if |window| == SPAN_SIZE then window[1..] else window) + [next]
  }

  function SlidUnion(window: seq<FeatureSet>, current: FeatureSet, next: FeatureSet): FeatureSet {
    if |window| == SPAN_SIZE then Merge(EvictPrefix(current, window[0], |window[0].keys|), next)
    else Merge(current, next)
  }

  class SpanOfCallsMatcher {
    const rs: MatchingRuleSet
    var matches: MatchResults
    var currentFeatureSets: seq<FeatureSet>
    var currentFeatures: FeatureSet
    var lastSpanMatches: set<string>
    ghost var spans: seq<Span>

    constructor (rs: MatchingRuleSet)
      requires rs.Indexed()
      ensures Valid() && this.rs == rs && spans == []
    {
      this.rs := rs;
      matches, currentFeatureSets, currentFeatures, lastSpanMatches := map[], [], EMPTY, {};
      spans := [];
      new;
      NothingYet(rs);
    }

    ghost predicate Valid()
      reads this
    {
      rs.Indexed() && State(rs, spans, currentFeatureSets, currentFeatures, lastSpanMatches, matches)
    }

    /** Forget a call: take its own locations out of the union, but leave the global features alone. */
    method ForgetOldest(oldest: FeatureSet)
      modifies this`currentFeatures
      ensures currentFeatures == EvictPrefix(old(currentFeatures), oldest, |oldest.keys|)
    {
      ghost var before := currentFeatures;
      for i := 0 to |oldest.keys|
        invariant currentFeatures == EvictPrefix(before, oldest, i)
      {
        KeyIsLocated(oldest, i);
        currentFeatures := EvictUnlessGlobal(currentFeatures, oldest.keys[i], oldest.locs[oldest.keys[i]]);
      }
    }

    /** Slide the window by one call. */
    method Slide(callFeatures: FeatureSet)
      modifies this`currentFeatures, this`currentFeatureSets
      ensures currentFeatureSets == SlidWindow(old(currentFeatureSets), callFeatures)
      ensures currentFeatures == SlidUnion(old(currentFeatureSets), old(currentFeatures), callFeatures)
    {
      if |currentFeatureSets| == SPAN_SIZE {
        var overflowing := currentFeatureSets[0];
        currentFeatureSets := currentFeatureSets[1..];
        ForgetOldest(overflowing);
      }
      currentFeatureSets := currentFeatureSets + [callFeatures];
      currentFeatures := Merge(currentFeatures, callFeatures);
    }

    /** `next`: match the span that ends with this call, and record what is not suppressed. */
    method Next(callAddr: Address, callFeatures: FeatureSet, ghost p: Program)
      returns (r: Outcome<(), EngineError>, ghost span: Span)
      requires Valid() && p.rules == rs.byScope
      modifies this
      ensures r.Ok? ==>
                Valid() && spans == old(spans) + [span] && span.addr == callAddr && span.features == callFeatures
      ensures p.Valid() ==> r.Ok? && span.found == ScanAt(p, SpanOfCallsScope, currentFeatures, callAddr).results
    {
      SlideKeepsState(rs, spans, callAddr, callFeatures, currentFeatureSets, currentFeatures, lastSpanMatches, matches);
      Slide(callFeatures);
      r, span := MatchSpan(callAddr, callFeatures, p);
    }

    /** The second half of `next`, on the window as it now stands. */
    method MatchSpan(callAddr: Address, callFeatures: FeatureSet, ghost p: Program)
      returns (r: Outcome<(), EngineError>, ghost span: Span)
      requires rs.Indexed() && p.rules == rs.byScope
      requires SlidState(rs, spans, callAddr, callFeatures, currentFeatureSets, currentFeatures, lastSpanMatches,
                         matches)
      modifies this`matches, this`lastSpanMatches, this`spans
      ensures r.Ok? ==>
                Valid() && spans == old(spans) + [span] && span.addr == callAddr && span.features == callFeatures
      ensures p.Valid() ==> r.Ok? && span.found == ScanAt(p, SpanOfCallsScope, currentFeatures, callAddr).results
    {
      span := Span(callAddr, callFeatures, map[]);
      var scan := MatchScopeResults(rs, p, SpanOfCallsScope, currentFeatures, callAddr);
      if scan.Err? { return Err(scan.error), span; }
      span := Span(callAddr, callFeatures, scan.value);
      RecordSpan(scan.value, span);
      r := Ok(());
    }

    /** Append what is not suppressed to the matches, and remember the names for the next call. */
    method RecordSpan(found: MatchResults, ghost span: Span)
      requires rs.Indexed() && span.found == found
      requires SlidState(rs, spans, span.addr, span.features, currentFeatureSets, currentFeatures, lastSpanMatches,
                         matches)
      modifies this`matches, this`lastSpanMatches, this`spans
      ensures Valid() && spans == old(spans) + [span]
    {
      RecordKeepsState(rs, spans, span, currentFeatureSets, currentFeatures, lastSpanMatches, matches);
      var suppressed := Suppressed(rs, lastSpanMatches, found.Keys);
      var unsuppressed := map name | name in found && name !in suppressed :: found[name];
      UnsuppressedAreFresh(rs, lastSpanMatches, found, suppressed);
      matches := ExtendWith(matches, unsuppressed);
      lastSpanMatches := found.Keys;
      spans := spans + [span];
    }
  }

  lemma UnsuppressedAreFresh(rs: MatchingRuleSet, last: set<string>, found: MatchResults, suppressed: set<string>)
    requires forall name | name in found.Keys :: name in suppressed <==> !Keeps(rs, last, found.Keys, name)
    ensures (map name | name in found && name !in suppressed :: found[name]) == Fresh(rs, last, found)
  {
  }

  lemma SlideKeepsState(rs: MatchingRuleSet, spans: seq<Span>, addr: Address, features: FeatureSet,
                        window: seq<FeatureSet>, current: FeatureSet, last: set<string>, matches: MatchResults)
    requires State(rs, spans, window, current, last, matches)
    ensures SlidState(rs, spans, addr, features, SlidWindow(window, features), SlidUnion(window, current, features),
                      last, matches)
  {
    var span := Span(addr, features, map[]);
    WindowSlides(spans, span);
    NextIsUnion(spans, span, current);
  }

  lemma RecordKeepsState(rs: MatchingRuleSet, spans: seq<Span>, span: Span, window: seq<FeatureSet>,
                         current: FeatureSet, last: set<string>, matches: MatchResults)
    requires SlidState(rs, spans, span.addr, span.features, window, current, last, matches)
    ensures State(rs, spans + [span], window, current, span.found.Keys,
                  ExtendMatches(matches, Fresh(rs, last, span.found)))
  {
    WindowSlides(spans, span);
    WindowSlides(spans, Span(span.addr, span.features, map[]));
    NextIsRecorded(rs, spans, span);
    UnionIgnoresFound(spans, span, current);
  }

  lemma UnionIgnoresFound(spans: seq<Span>, span: Span, current: FeatureSet)
    requires AgreesWithWindow(spans + [Span(span.addr, span.features, map[])], current)
    ensures AgreesWithWindow(spans + [span], current)
  {
    var bare := Span(span.addr, span.features, map[]);
    WindowSlides(spans, span);
    WindowSlides(spans, bare);
    forall globals | WellFed(spans + [span], globals) ensures WellFed(spans + [bare], globals) {
      FeedIgnoresFound(spans, span, globals);
    }
  }

  lemma FeedIgnoresFound(spans: seq<Span>, span: Span, globals: set<Feature>)
    requires WellFed(spans + [span], globals)
    ensures WellFed(spans + [Span(span.addr, span.features, map[])], globals)
  {
    var longer, bare := spans + [span], spans + [Span(span.addr, span.features, map[])];
    forall i | 0 <= i < |bare| ensures bare[i].addr == longer[i].addr && bare[i].features == longer[i].features {
    }
  }

  lemma NothingYet(rs: MatchingRuleSet)
    ensures Window([]) == [] && RecordedMatches(rs, []) == map[] && IsUnion(EMPTY, [])
  {
    forall f ensures HasWindow(EMPTY.locs, [], f) {
      assert WindowSites([], f) == {};
    }
  }

  lemma NextIsRecorded(rs: MatchingRuleSet, spans: seq<Span>, span: Span)
    ensures RecordedMatches(rs, spans + [span])
            == ExtendMatches(RecordedMatches(rs, spans), Fresh(rs, NamesBefore(spans, |spans|), span.found))
  {
    var longer := spans + [span];
    assert RecordedMatches(rs, longer)
        == ExtendMatches(RecordedMatches(rs, longer[..|spans|]),
                         Fresh(rs, NamesBefore(longer, |spans|), longer[|spans|].found));
    assert longer[..|spans|] == spans && longer[|spans|] == span;
    assert NamesBefore(longer, |spans|) == NamesBefore(spans, |spans|);
  }

  /** The incremental union agrees with the window recomputed, on calls as the extractors feed them. */
  lemma NextIsUnion(spans: seq<Span>, span: Span, current: FeatureSet)
    requires AgreesWithWindow(spans, current)
    ensures AgreesWithWindow(spans + [span], SlidUnion(Window(spans), current, span.features))
  {
    WindowSlides(spans, span);
    forall globals | WellFed(spans + [span], globals)
      ensures IsUnion(SlidUnion(Window(spans), current, span.features), Window(spans + [span]))
    {
      FedBefore(spans, span, globals);
      WindowIsOfCalls(spans, globals);
      if |Window(spans)| == SPAN_SIZE {
        SlidIsUnion(current, Window(spans), WindowAddresses(spans), globals, span.features, span.addr);
      } else {
        GrownIsUnion(current, Window(spans), span.features);
      }
    }
  }

  lemma FedBefore(spans: seq<Span>, span: Span, globals: set<Feature>)
    requires WellFed(spans + [span], globals)
    ensures WellFed(spans, globals) && OfCall(span.features, span.addr, globals)
  {
    var longer := spans + [span];
    forall i | 0 <= i < |spans|
      ensures spans[i].addr != NoAddress && OfCall(spans[i].features, spans[i].addr, globals)
    {
      assert longer[i] == spans[i];
    }
    forall i, j | 0 <= i < j < |spans| ensures spans[i].addr != spans[j].addr {
      assert longer[i] == spans[i] && longer[j] == spans[j];
    }
    assert longer[|spans|] == span;
  }

  /** The names held back: those of the last call, less whatever a newly matching rule depends on. */
  method Suppressed(rs: MatchingRuleSet, last: set<string>, now: set<string>) returns (suppressed: set<string>)
    ensures forall name | name in now :: name in suppressed <==> !Keeps(rs, last, now, name)
  {
    suppressed := last;
    var rest := set n | n in now && n !in last;
    ghost var newly := rest;
    while rest != {}
      invariant rest <= newly
      invariant forall name ::
                  name in suppressed <==>
                    name in last && !exists n | n in newly - rest :: name in RuleDependencies(rs, n)
    {
      var n :| n in rest;
      suppressed := suppressed - RuleDependencies(rs, n);
      rest := rest - {n};
    }
  }
}
