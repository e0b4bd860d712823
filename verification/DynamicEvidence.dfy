/**
 The evidence of a whole dynamic analysis is closed: for every reference by name in every recorded tree, of calls,
 spans, threads, processes and the file, the document builder has a match to splice in, and its recursion ends.
 */
module DynamicEvidence {
  import opened Base
  import opened Features
  import opened FeatureSets
  import opened Rules
  import opened Engine
  import opened RuleIndex
  import opened RuleGraph
  import opened StaticScopes
  import opened UnitContents
  import opened ExtractionSemantics
  import opened MatchingRules
  import opened MatchingRuleSets
  import opened StaticDriver
  import opened Evidence
  import opened StaticEvidence
  import opened SpanMatcher
  import opened DynamicDriver
  import opened ThreadEvidence
  import opened ProcessDriver

  // ---- what is assumed of the extracted features ----

  /** The units of a process nest, its calls are in order, and extraction yields no `match` features. */
  ghost predicate IsReadyProcess(p: Program, process: Unit) {
    && WellNested(process) && process.scope.ProcessScope? && NoMatchFeatures(p, process)
    && forall thread | thread in process.parts :: AreThreadCalls(p, thread.parts)
  }

  ghost predicate DynamicReady(rs: MatchingRuleSet, p: Program, file: Unit) {
    && RulesAreReady(rs, p) && file.scope.FileScope? && file.addr == NoAddress
    && (forall process | process in file.parts :: IsReadyProcess(p, process))
    && forall e | e in Entries(p, file) :: !e.1.MatchedRule?
  }

  /** The match was found in some scope. */
  predicate FoundIn(m: ProcessesFound, atFile: MatchResults, name: string, e: (Address, MatchResult)) {
    || e in Recorded(m.found.calls, name) || e in Recorded(m.found.spans, name) || e in Recorded(m.found.threads, name)
    || e in Recorded(m.processes, name) || e in Recorded(atFile, name)
  }

  lemma AllAreFound(m: ProcessesFound, atFile: MatchResults, name: string, e: (Address, MatchResult))
    ensures e in Recorded(AllMatches(m, atFile), name) <==> FoundIn(m, atFile, name, e)
  {
  }

  /** What was found in the processes of a file whose extracted features are as assumed. */
  ghost predicate FoundFor(rs: MatchingRuleSet, p: Program, file: Unit, m: ProcessesFound) {
    DynamicReady(rs, p, file) && ProcessesSoFar(rs, p, file.parts, |file.parts|, m)
  }

  /** Everything that was recorded, in whatever scope. */
  function Capabilities(rs: MatchingRuleSet, p: Program, file: Unit, m: ProcessesFound): MatchResults
    requires p.Valid()
  {
    AllMatches(m, FileScan(rs, p, file, m).results)
  }

  lemma FoundIsIndexed(rs: MatchingRuleSet, p: Program, file: Unit, m: ProcessesFound, name: string,
                       e: (Address, MatchResult))
    requires p.Valid() && FoundIn(m, FileScan(rs, p, file, m).results, name, e)
    ensures e.0 in RuleMatchIndex(Capabilities(rs, p, file, m), name)
  {
    AllAreFound(m, FileScan(rs, p, file, m).results, name, e);
    LastMatchWins(Recorded(Capabilities(rs, p, file, m), name), e.0);
  }

  // ---- units: calls, threads and processes ----

  /** The matches of one of the three scopes that are units. */
  function OfUnits(m: ProcessesFound, scope: Scope): MatchResults {
    if scope.CallScope? then m.found.calls else if scope.ThreadScope? then m.found.threads else m.processes
  }

  predicate IsUnitScope(scope: Scope) {
    scope.CallScope? || scope.ThreadScope? || scope.ProcessScope?
  }

  lemma UnitsAreCollected(rs: MatchingRuleSet, p: Program, file: Unit, m: ProcessesFound, scope: Scope)
    requires FoundFor(rs, p, file, m) && IsUnitScope(scope)
    ensures OfUnits(m, scope) == MatchesOfParts(p, file.parts, scope)
  {
    assert file.parts[..|file.parts|] == file.parts;
  }

  lemma UnitScope(p: Program, process: Unit, v: Unit)
    requires IsReadyProcess(p, process) && v in Units(process)
    ensures WellNested(v) && NoMatchFeatures(p, v) && IsUnitScope(v.scope)
  {
    UnitsAreWellNested(process, v);
    NoMatchWithin(p, process, v);
  }

  /** A match at a unit is recorded at its address. */
  lemma UnitIsRecorded(rs: MatchingRuleSet, p: Program, file: Unit, m: ProcessesFound, process: Unit, v: Unit,
                       name: string)
    returns (e: (Address, MatchResult))
    requires FoundFor(rs, p, file, m) && process in file.parts && v in Units(process) && Matched(p, name, v)
    ensures e in Recorded(OfUnits(m, v.scope), name) && e.0 == v.addr && IsUnitScope(v.scope)
  {
    UnitScope(p, process, v);
    UnitsAreCollected(rs, p, file, m, v.scope);
    UnitsInParts(file.parts);
    MatchesOfPartsContents(p, file.parts, v.scope, name);
    assert v in MatchedUnits(p, UnitsIn(file.parts), v.scope, name);
    assert v.addr in RecordedAt(OfUnits(m, v.scope), name);
    e :| e in Recorded(OfUnits(m, v.scope), name) && e.0 == v.addr;
  }

  lemma UnitIsIndexed(rs: MatchingRuleSet, p: Program, file: Unit, m: ProcessesFound, process: Unit, v: Unit,
                      name: string)
    requires FoundFor(rs, p, file, m) && process in file.parts && v in Units(process) && Matched(p, name, v)
    ensures v.addr in RuleMatchIndex(Capabilities(rs, p, file, m), name)
  {
    var e := UnitIsRecorded(rs, p, file, m, process, v, name);
    FoundIsIndexed(rs, p, file, m, name, e);
  }

  /** A rule that is published at a unit is found there. */
  lemma UnitPublicationIsFound(rs: MatchingRuleSet, p: Program, file: Unit, m: ProcessesFound, process: Unit, v: Unit,
                               name: string)
    requires FoundFor(rs, p, file, m) && process in file.parts && v in Units(process)
    requires Named(rs.rules, name).Some? && PublishedAt(p, name, v)
    ensures SubscopeOf(Named(rs.rules, name).value).Some?
    ensures IsFoundAt(RuleMatchIndex(Capabilities(rs, p, file, m), name), v.addr)
  {
    PublishedIsNamed(rs, p, v.scope, Scan(p, v).results, name);
    UnitIsIndexed(rs, p, file, m, process, v, name);
  }

  /** Whatever a unit of a process refers to by name is found at each of its locations. */
  lemma UnitNamesAreFound(rs: MatchingRuleSet, p: Program, file: Unit, m: ProcessesFound, process: Unit, u: Unit)
    requires FoundFor(rs, p, file, m) && process in file.parts && u in Units(process)
    ensures NamesAreFound(rs, Capabilities(rs, p, file, m), Scan(p, u).features.locs)
  {
    var locs := Scan(p, u).features.locs;
    UnitScope(p, process, u);
    forall name | Named(rs.rules, name).Some? && MatchedRule(name) in locs
      ensures NameIsFound(rs, Capabilities(rs, p, file, m), locs, name)
    {
      UnitContents.UnitContents(p, u, MatchedRule(name));
      forall v | v in Units(u) && PublishedAt(p, name, v)
        ensures SubscopeOf(Named(rs.rules, name).value).Some?
        ensures IsFoundAt(RuleMatchIndex(Capabilities(rs, p, file, m), name), v.addr)
      {
        UnitsNest(process, u, v);
        UnitPublicationIsFound(rs, p, file, m, process, v, name);
      }
      NameIsSeenFound(rs, p, Capabilities(rs, p, file, m), Units(u), locs, name);
    }
  }

  lemma NameIsSeenFound(rs: MatchingRuleSet, p: Program, capabilities: MatchResults, units: set<Unit>,
                        locs: map<Feature, set<Address>>, name: string)
    requires p.Valid() && Named(rs.rules, name).Some? && MatchedRule(name) in locs
    requires Sees(p, MatchedRule(name), units, locs)
    requires forall v | v in units && PublishedAt(p, name, v) ::
               SubscopeOf(Named(rs.rules, name).value).Some? && IsFoundAt(RuleMatchIndex(capabilities, name), v.addr)
    ensures NameIsFound(rs, capabilities, locs, name)
  {
    var w :| w in units && UnitContents.Shows(p, MatchedRule(name), w);
    forall a | a in Locations(locs, MatchedRule(name)) ensures IsFoundAt(RuleMatchIndex(capabilities, name), a) {
      var v :| v in units && a in OwnSites(p, MatchedRule(name), v);
    }
  }

  /** The features in which a recorded tree is grounded, all of whose names are found. */
  ghost predicate HasFoundGrounds(rs: MatchingRuleSet, capabilities: MatchResults, name: string,
                                  e: (Address, MatchResult))
  {
    exists locs :: HasGrounds(rs.rules, locs, name, e.1) && NamesAreFound(rs, capabilities, locs)
  }

  lemma UnitRecordHasGrounds(rs: MatchingRuleSet, p: Program, file: Unit, m: ProcessesFound, scope: Scope, name: string,
                             e: (Address, MatchResult))
    requires FoundFor(rs, p, file, m) && IsUnitScope(scope) && e in Recorded(OfUnits(m, scope), name)
    ensures HasFoundGrounds(rs, Capabilities(rs, p, file, m), name, e)
  {
    UnitsAreCollected(rs, p, file, m, scope);
    PartsRecordOrigin(p, file.parts, scope, name, e);
    var v :| v in UnitsIn(file.parts) && e in Recorded(Scan(p, v).results, name);
    UnitsInParts(file.parts);
    var process :| process in file.parts && v in Units(process);
    UnitRecordIsGrounded(rs, p, v, name, e);
    UnitNamesAreFound(rs, p, file, m, process, v);
  }

  // ---- spans ----

  /** Every match that `part` lists `all` lists too. */
  ghost predicate IsPartOf(part: MatchResults, all: MatchResults) {
    forall name, e | e in Recorded(part, name) :: e in Recorded(all, name)
  }

  /** The spans of a thread were recorded in `all`. */
  ghost predicate IsSpanPart(rs: MatchingRuleSet, p: Program, thread: Unit, spans: seq<Span>, all: MatchResults)
    requires p.Valid()
  {
    |spans| == |thread.parts| && AreSpansOf(p, thread.parts, spans) && IsPartOf(RecordedMatches(rs, spans), all)
  }

  lemma SpanPartIn(rs: MatchingRuleSet, p: Program, thread: Unit, spans: seq<Span>, part: MatchResults,
                   all: MatchResults)
    requires p.Valid() && IsSpanPart(rs, p, thread, spans, part)
    requires IsPartOf(part, all)
    ensures IsSpanPart(rs, p, thread, spans, all)
  {
  }

  /** The rule is listed, and with this match if one is given. */
  predicate Lists(all: MatchResults, name: string, e: Option<(Address, MatchResult)>) {
    name in all && (e.Some? ==> e.value in all[name])
  }

  lemma ListedInOne(before: MatchResults, last: MatchResults, name: string, e: Option<(Address, MatchResult)>)
    requires Lists(ExtendMatches(before, last), name, e)
    ensures Lists(before, name, e) || Lists(last, name, e)
    ensures IsPartOf(before, ExtendMatches(before, last)) && IsPartOf(last, ExtendMatches(before, last))
  {
  }

  /** What was recorded over the threads, taken apart at the last of them. */
  lemma LastThread(rs: MatchingRuleSet, p: Program, threads: seq<Unit>, all: MatchResults, name: string,
                   e: Option<(Address, MatchResult)>)
    returns (before: MatchResults, last: MatchResults)
    requires p.Valid() && SpansOfThreads(rs, p, threads, all) && Lists(all, name, e)
    ensures threads != [] && SpansOfThreads(rs, p, threads[..|threads| - 1], before)
    ensures SpansOfThread(rs, p, threads[|threads| - 1], last)
    ensures Lists(before, name, e) || Lists(last, name, e)
    ensures IsPartOf(before, all) && IsPartOf(last, all)
  {
    before, last :|
      && FoundOneByOne(SpansOf(rs, p), threads[..|threads| - 1], before)
      && SpansOf(rs, p)(threads[|threads| - 1], last)
      && all == ExtendMatches(before, last);
    ListedInOne(before, last, name, e);
  }

  lemma LastProcess(rs: MatchingRuleSet, p: Program, processes: seq<Unit>, all: MatchResults, name: string,
                    e: Option<(Address, MatchResult)>)
    returns (before: MatchResults, last: MatchResults)
    requires p.Valid() && SpansOfProcesses(rs, p, processes, all) && Lists(all, name, e)
    ensures processes != [] && SpansOfProcesses(rs, p, processes[..|processes| - 1], before)
    ensures SpansOfThreads(rs, p, processes[|processes| - 1].parts, last)
    ensures Lists(before, name, e) || Lists(last, name, e)
    ensures IsPartOf(before, all) && IsPartOf(last, all)
  {
    before, last :|
      && FoundOneByOne(SpansOfParts(rs, p), processes[..|processes| - 1], before)
      && SpansOfParts(rs, p)(processes[|processes| - 1], last)
      && all == ExtendMatches(before, last);
    ListedInOne(before, last, name, e);
  }

  lemma OneThread(rs: MatchingRuleSet, p: Program, thread: Unit, all: MatchResults) returns (spans: seq<Span>)
    requires p.Valid() && SpansOfThread(rs, p, thread, all)
    ensures IsSpanPart(rs, p, thread, spans, all) && all == RecordedMatches(rs, spans)
  {
    spans :| |spans| == |thread.parts| && AreSpansOf(p, thread.parts, spans) && all == RecordedMatches(rs, spans);
  }

  lemma {:induction false} ThreadOfSpan(rs: MatchingRuleSet, p: Program, threads: seq<Unit>, all: MatchResults,
                                        name: string, e: Option<(Address, MatchResult)>)
    returns (thread: Unit, spans: seq<Span>)
    requires p.Valid() && SpansOfThreads(rs, p, threads, all) && Lists(all, name, e)
    ensures thread in threads && IsSpanPart(rs, p, thread, spans, all) && Lists(RecordedMatches(rs, spans), name, e)
  {
    var before, last := LastThread(rs, p, threads, all, name, e);
    if Lists(last, name, e) {
      thread := threads[|threads| - 1];
      spans := OneThread(rs, p, thread, last);
      SpanPartIn(rs, p, thread, spans, last, all);
    } else {
      thread, spans := ThreadOfSpan(rs, p, threads[..|threads| - 1], before, name, e);
      SpanPartIn(rs, p, thread, spans, before, all);
    }
  }

  /** Every span match was recorded over the calls of some thread, as were all others of that thread. */
  lemma {:induction false} ProcessOfSpan(rs: MatchingRuleSet, p: Program, processes: seq<Unit>, all: MatchResults,
                                         name: string, e: Option<(Address, MatchResult)>)
    returns (process: Unit, thread: Unit, spans: seq<Span>)
    requires p.Valid() && SpansOfProcesses(rs, p, processes, all) && Lists(all, name, e)
    ensures process in processes && thread in process.parts
    ensures IsSpanPart(rs, p, thread, spans, all) && Lists(RecordedMatches(rs, spans), name, e)
  {
    var before, last := LastProcess(rs, p, processes, all, name, e);
    if Lists(last, name, e) {
      process := processes[|processes| - 1];
      thread, spans := ThreadOfSpan(rs, p, process.parts, last, name, e);
      SpanPartIn(rs, p, thread, spans, last, all);
    } else {
      process, thread, spans := ProcessOfSpan(rs, p, processes[..|processes| - 1], before, name, e);
      SpanPartIn(rs, p, thread, spans, before, all);
    }
  }

  // ---- one thread of the analysis ----

  lemma {:induction false} PartIsCollected(p: Program, parts: seq<Unit>, part: Unit, scope: Scope, name: string,
                                           e: (Address, MatchResult))
    requires p.Valid() && part in parts && e in Recorded(MatchesOf(p, part, scope), name)
    ensures e in Recorded(MatchesOfParts(p, parts, scope), name)
  {
    if part != parts[|parts| - 1] {
      PartIsCollected(p, parts[..|parts| - 1], part, scope, name, e);
    }
  }

  /** What the thread driver reports of one thread of the analysis. */
  function ReportOf(rs: MatchingRuleSet, p: Program, thread: Unit, spans: seq<Span>): ThreadCapabilities
    requires p.Valid()
  {
    ThreadCapabilities(Scan(p, thread).features, MatchesOf(p, thread, ThreadScope), RecordedMatches(rs, spans),
                       MatchesOf(p, thread, CallScope))
  }

  lemma ReportIsCollected(rs: MatchingRuleSet, p: Program, file: Unit, m: ProcessesFound, process: Unit, thread: Unit,
                          spans: seq<Span>)
    requires FoundFor(rs, p, file, m) && process in file.parts && thread in process.parts
    requires IsSpanPart(rs, p, thread, spans, m.found.spans)
    ensures Includes(Capabilities(rs, p, file, m), ReportOf(rs, p, thread, spans))
  {
    var r := ReportOf(rs, p, thread, spans);
    forall name, e | RecordedIn(r, name, e) ensures e in Recorded(Capabilities(rs, p, file, m), name) {
      forall scope | scope in {CallScope, ThreadScope} && e in Recorded(MatchesOf(p, thread, scope), name)
        ensures e in Recorded(OfUnits(m, scope), name)
      {
        UnitsAreCollected(rs, p, file, m, scope);
        PartIsCollected(p, process.parts, thread, scope, name, e);
        MatchesBelow(p, process, scope);
        PartIsCollected(p, file.parts, process, scope, name, e);
      }
      AllAreFound(m, FileScan(rs, p, file, m).results, name, e);
    }
  }

  lemma ThreadIsAnalyzed(rs: MatchingRuleSet, p: Program, process: Unit, thread: Unit, spans: seq<Span>)
    requires RulesAreReady(rs, p) && IsReadyProcess(p, process) && thread in process.parts
    requires |spans| == |thread.parts| && AreSpansOf(p, thread.parts, spans)
    ensures Analyzed(rs, p, thread, spans, ReportOf(rs, p, thread, spans))
  {
    assert WellNested(thread);
    UnitsInParts(process.parts);
    assert thread in Units(thread);
    assert thread in Units(process);
    MatchesBelow(p, thread, CallScope);
  }

  lemma SpanRecordHasGrounds(rs: MatchingRuleSet, p: Program, file: Unit, m: ProcessesFound, name: string,
                             e: (Address, MatchResult))
    requires FoundFor(rs, p, file, m) && e in Recorded(m.found.spans, name)
    ensures HasFoundGrounds(rs, Capabilities(rs, p, file, m), name, e)
  {
    assert file.parts[..|file.parts|] == file.parts;
    var process, thread, spans := ProcessOfSpan(rs, p, file.parts, m.found.spans, name, Some(e));
    var r := ReportOf(rs, p, thread, spans);
    ThreadIsAnalyzed(rs, p, process, thread, spans);
    ReportIsCollected(rs, p, file, m, process, thread, spans);
    assert RecordedIn(r, name, e);
    var locs := RecordHasGrounds(rs, p, thread, spans, r, Capabilities(rs, p, file, m), name, e);
  }

  // ---- the file ----

  /** What publishing the matches of one scope adds under a rule's name is that rule's matches, at their addresses. */
  lemma StageNames(rs: MatchingRuleSet, fs: FeatureSet, matches: MatchResults, name: string)
    requires UniqueNames(rs.rules) && NoNameIsANamespace(rs.rules) && Named(rs.rules, name).Some?
    ensures var locs, f := PublishEach(fs, rs.rules, MatchAddresses(matches)).locs, MatchedRule(name);
            && (f in locs ==> f in fs.locs || name in matches)
            && forall a | a in Locations(locs, f) :: a in Locations(fs.locs, f) || a in RecordedAt(matches, name)
  {
    var at := MatchAddresses(matches);
    PublishEachContents(fs, rs.rules, at, MatchedRule(name));
    forall rule | rule in rs.rules && rule.name in at && name in PublishedNames(rule) ensures rule.name == name {
      OnlyTheRuleHasTheName(rs.rules, rule, name);
    }
  }

  /** Where a rule was recorded in a scope below the file. */
  predicate RecordedBelow(m: ProcessesFound, name: string, a: Address) {
    || a in RecordedAt(m.found.calls, name) || a in RecordedAt(m.found.spans, name)
    || a in RecordedAt(m.found.threads, name) || a in RecordedAt(m.processes, name)
  }

  predicate MatchedBelow(m: ProcessesFound, name: string) {
    name in m.found.calls || name in m.found.spans || name in m.found.threads || name in m.processes
  }

  lemma LowerNames(rs: MatchingRuleSet, m: ProcessesFound, name: string)
    requires UniqueNames(rs.rules) && NoNameIsANamespace(rs.rules) && Named(rs.rules, name).Some?
    ensures MatchedRule(name) in LowerOf(rs, m).locs ==> MatchedBelow(m, name)
    ensures forall a | a in Locations(LowerOf(rs, m).locs, MatchedRule(name)) :: RecordedBelow(m, name, a)
  {
    var a := PublishEach(EMPTY, rs.rules, MatchAddresses(m.found.calls));
    var b := PublishEach(a, rs.rules, MatchAddresses(m.found.spans));
    var c := PublishEach(b, rs.rules, MatchAddresses(m.found.threads));
    StageNames(rs, EMPTY, m.found.calls, name);
    StageNames(rs, a, m.found.spans, name);
    StageNames(rs, b, m.found.threads, name);
    StageNames(rs, c, m.processes, name);
  }

  lemma ScannedIsListed(p: Program, scope: Scope, fs: FeatureSet, addr: Address, name: string) returns (rule: Rule)
    requires p.Valid() && name in ScanAt(p, scope, fs, addr).results
    ensures rule in p.RulesAt(scope) && rule.name == name
  {
    var here := p.RulesAt(scope);
    EvaluableScanSucceeds(here, |here|, fs, addr);
    ResultsAreNamed(here, |here|, fs, addr);
    var i :| 0 <= i < |here| && here[i].name == name;
    rule := here[i];
  }

  lemma OnlyOneIsNamed(rules: seq<Rule>, rule: Rule)
    requires UniqueNames(rules) && rule in rules
    ensures Named(rules, rule.name) == Some(rule)
  {
    assert Named(rules, rule.name).Some?;
    assert Named(rules, rule.name).value in rules;
  }

  /** What is matched in a scan has the scan's scope. */
  lemma ScannedHasScope(rs: MatchingRuleSet, p: Program, scope: Scope, fs: FeatureSet, addr: Address, name: string)
    requires RulesAreReady(rs, p) && name in ScanAt(p, scope, fs, addr).results
    ensures Named(rs.rules, name).Some? && Named(rs.rules, name).value.scopes.Contains(scope)
  {
    var rule := ScannedIsListed(p, scope, fs, addr, name);
    ScopeIsDrawn(rs, p, scope);
    OnlyOneIsNamed(rs.rules, rule);
  }

  lemma {:induction false} RecordedSpanMatched(rs: MatchingRuleSet, spans: seq<Span>, name: string) returns (t: nat)
    requires name in RecordedMatches(rs, spans)
    ensures t < |spans| && name in spans[t].found
  {
    t := |spans| - 1;
    if name !in spans[t].found {
      t := RecordedSpanMatched(rs, spans[..t], name);
    }
  }

  lemma SpanMatchedHasScope(rs: MatchingRuleSet, p: Program, file: Unit, m: ProcessesFound, name: string)
    requires FoundFor(rs, p, file, m) && name in m.found.spans
    ensures Named(rs.rules, name).Some? && Named(rs.rules, name).value.scopes.Contains(SpanOfCallsScope)
  {
    assert file.parts[..|file.parts|] == file.parts;
    var process, thread, spans := ProcessOfSpan(rs, p, file.parts, m.found.spans, name, None);
    var t := RecordedSpanMatched(rs, spans, name);
    assert IsSpanOf(p, thread.parts, spans, t);
    var current :| MatchedOn(p, spans, t, current);
    ScannedHasScope(rs, p, SpanOfCallsScope, current, spans[t].addr, name);
  }

  lemma MatchedBelowHasScope(rs: MatchingRuleSet, p: Program, file: Unit, m: ProcessesFound, name: string)
    requires FoundFor(rs, p, file, m) && Named(rs.rules, name).Some? && MatchedBelow(m, name)
    ensures SubscopeOf(Named(rs.rules, name).value).Some?
  {
    if name in m.found.spans {
      SpanMatchedHasScope(rs, p, file, m, name);
    } else if name in m.found.calls {
      UnitMatchedHasScope(rs, p, file, m, CallScope, name);
    } else if name in m.found.threads {
      UnitMatchedHasScope(rs, p, file, m, ThreadScope, name);
    } else {
      UnitMatchedHasScope(rs, p, file, m, ProcessScope, name);
    }
  }

  lemma UnitMatchedHasScope(rs: MatchingRuleSet, p: Program, file: Unit, m: ProcessesFound, scope: Scope, name: string)
    requires FoundFor(rs, p, file, m) && Named(rs.rules, name).Some?
    requires IsUnitScope(scope) && name in OfUnits(m, scope)
    ensures SubscopeOf(Named(rs.rules, name).value).Some?
  {
    UnitsAreCollected(rs, p, file, m, scope);
    PartsMatched(p, file.parts, scope, name);
    var v :| v in UnitsIn(file.parts) && Matched(p, name, v);
    MatchedHasScope(rs, p, v, name);
  }

  lemma MatchedHasScope(rs: MatchingRuleSet, p: Program, v: Unit, name: string)
    requires RulesAreReady(rs, p) && Matched(p, name, v)
    ensures Named(rs.rules, name).Some? && SubscopeOf(Named(rs.rules, name).value).Some?
  {
    ScannedHasScope(rs, p, v.scope, Before(p, v), v.addr, name);
  }

  lemma PartsMatched(p: Program, processes: seq<Unit>, scope: Scope, name: string)
    requires p.Valid() && name in MatchesOfParts(p, processes, scope)
    requires forall process | process in processes :: IsReadyProcess(p, process)
    ensures exists v | v in UnitsIn(processes) :: Matched(p, name, v)
  {
    MatchesOfPartsContents(p, processes, scope, name);
    var v :| v in MatchedUnits(p, UnitsIn(processes), scope, name);
  }

  lemma BelowIsIndexed(rs: MatchingRuleSet, p: Program, file: Unit, m: ProcessesFound, name: string, a: Address)
    requires p.Valid() && RecordedBelow(m, name, a)
    ensures a in RuleMatchIndex(Capabilities(rs, p, file, m), name)
  {
    var scope := if a in RecordedAt(m.found.calls, name) then m.found.calls
                 else if a in RecordedAt(m.found.spans, name) then m.found.spans
                 else if a in RecordedAt(m.found.threads, name) then m.found.threads
                 else m.processes;
    var e :| e in Recorded(scope, name) && e.0 == a;
    FoundIsIndexed(rs, p, file, m, name, e);
  }

  lemma FileSeesBelow(rs: MatchingRuleSet, p: Program, file: Unit, m: ProcessesFound, name: string)
    requires DynamicReady(rs, p, file) && Named(rs.rules, name).Some?
    ensures var locs := FileFeatures(p, file, LowerOf(rs, m)).locs;
            && (MatchedRule(name) in locs ==> MatchedBelow(m, name))
            && forall a | a in Locations(locs, MatchedRule(name)) :: RecordedBelow(m, name, a)
  {
    InsertGuardedContents(EMPTY, Entries(p, file), MatchedRule(name));
    MergeContentsAt(InsertGuarded(EMPTY, Entries(p, file)), LowerOf(rs, m), MatchedRule(name));
    LowerNames(rs, m, name);
  }

  lemma FileNameIsFound(rs: MatchingRuleSet, p: Program, file: Unit, m: ProcessesFound, name: string)
    requires FoundFor(rs, p, file, m) && Named(rs.rules, name).Some?
    requires MatchedRule(name) in FileScan(rs, p, file, m).features.locs
    ensures NameIsFound(rs, Capabilities(rs, p, file, m), FileScan(rs, p, file, m).features.locs, name)
  {
    var fs := FileFeatures(p, file, LowerOf(rs, m));
    ScanContents(p, FileScope, fs, NoAddress, MatchedRule(name));
    FileSeesBelow(rs, p, file, m, name);
    if MatchedBelow(m, name) {
      MatchedBelowHasScope(rs, p, file, m, name);
    }
    forall a | RecordedBelow(m, name, a) ensures IsFoundAt(RuleMatchIndex(Capabilities(rs, p, file, m), name), a) {
      BelowIsIndexed(rs, p, file, m, name, a);
    }
    if PublishedBy(p.RulesAt(FileScope), FileScan(rs, p, file, m).results, name) {
      PublishedIsNamed(rs, p, FileScope, FileScan(rs, p, file, m).results, name);
      FileMatchIsIndexed(rs, p, file, m, name);
    }
  }

  lemma FileMatchIsIndexed(rs: MatchingRuleSet, p: Program, file: Unit, m: ProcessesFound, name: string)
    requires p.Valid() && name in FileScan(rs, p, file, m).results
    ensures NoAddress in RuleMatchIndex(Capabilities(rs, p, file, m), name)
  {
    var rules, fs := p.RulesAt(FileScope), FileFeatures(p, file, LowerOf(rs, m));
    EvaluableScanSucceeds(rules, |rules|, fs, NoAddress);
    ScanRecordsHere(rules, |rules|, fs, NoAddress, name);
    var e := FileScan(rs, p, file, m).results[name][0];
    assert e in Recorded(FileScan(rs, p, file, m).results, name);
    FoundIsIndexed(rs, p, file, m, name, e);
  }

  lemma FileRecordHasGrounds(rs: MatchingRuleSet, p: Program, file: Unit, m: ProcessesFound, name: string,
                             e: (Address, MatchResult))
    requires FoundFor(rs, p, file, m) && e in Recorded(FileScan(rs, p, file, m).results, name)
    ensures HasFoundGrounds(rs, Capabilities(rs, p, file, m), name, e)
  {
    ScanRecordIsGrounded(rs, p, FileScope, FileFeatures(p, file, LowerOf(rs, m)), NoAddress, name, e);
    var locs := FileScan(rs, p, file, m).features.locs;
    forall n | Named(rs.rules, n).Some? && MatchedRule(n) in locs
      ensures NameIsFound(rs, Capabilities(rs, p, file, m), locs, n)
    {
      FileNameIsFound(rs, p, file, m, n);
    }
  }

  // ---- every recorded tree ----

  lemma DynamicRecordHasGrounds(rs: MatchingRuleSet, p: Program, file: Unit, m: ProcessesFound, name: string,
                                e: (Address, MatchResult))
    requires FoundFor(rs, p, file, m) && e in Recorded(Capabilities(rs, p, file, m), name)
    ensures HasFoundGrounds(rs, Capabilities(rs, p, file, m), name, e)
  {
    AllAreFound(m, FileScan(rs, p, file, m).results, name, e);
    if e in Recorded(m.found.calls, name) {
      UnitRecordHasGrounds(rs, p, file, m, CallScope, name, e);
    } else if e in Recorded(m.found.spans, name) {
      SpanRecordHasGrounds(rs, p, file, m, name, e);
    } else if e in Recorded(m.found.threads, name) {
      UnitRecordHasGrounds(rs, p, file, m, ThreadScope, name, e);
    } else if e in Recorded(m.processes, name) {
      UnitRecordHasGrounds(rs, p, file, m, ProcessScope, name, e);
    } else {
      FileRecordHasGrounds(rs, p, file, m, name, e);
    }
  }

  /**
   Of a whole dynamic analysis, every reference by name in every recorded tree has a match to splice in at each of its
   locations, and none makes the builder fail.
   */
  lemma DynamicEvidenceIsFound(rs: MatchingRuleSet, p: Program, file: Unit, m: ProcessesFound, name: string,
                               e: (Address, MatchResult))
    requires FoundFor(rs, p, file, m) && e in Recorded(Capabilities(rs, p, file, m), name)
    ensures TreeIsFound(rs, Capabilities(rs, p, file, m), e.1) && TreeIsSound(rs, Capabilities(rs, p, file, m), e.1)
  {
    DynamicRecordHasGrounds(rs, p, file, m, name, e);
    FoundGroundsAreFound(rs, Capabilities(rs, p, file, m), name, e);
  }

  lemma FoundGroundsAreFound(rs: MatchingRuleSet, capabilities: MatchResults, name: string, e: (Address, MatchResult))
    requires HasFoundGrounds(rs, capabilities, name, e)
    ensures TreeIsFound(rs, capabilities, e.1) && TreeIsSound(rs, capabilities, e.1)
  {
    var locs :| HasGrounds(rs.rules, locs, name, e.1) && NamesAreFound(rs, capabilities, locs);
    var rule :| rule in rs.rules && rule.name == name && Grounded(References(rule.body), locs, e.1);
    GroundedIsFound(rs, capabilities, References(rule.body), locs, e.1);
  }

  lemma FoundGroundsAreRanked(rs: MatchingRuleSet, p: Program, order: seq<string>, capabilities: MatchResults,
                              name: string, e: (Address, MatchResult))
    requires RulesAreReady(rs, p) && ListsInOrder(GraphOf(rs.rules, rs.namespaces), order)
    requires HasFoundGrounds(rs, capabilities, name, e)
    ensures RecordIsRanked(rs, RanksOf(order), name, e)
  {
    var locs :| HasGrounds(rs.rules, locs, name, e.1) && NamesAreFound(rs, capabilities, locs);
    GroundsAreRanked(rs, p, order, locs, name, e);
  }

  /** The builder gives a document tree for every match of a dynamic analysis: it ends, and misses nothing. */
  lemma DynamicDocumentIsBuilt(rs: MatchingRuleSet, p: Program, file: Unit, m: ProcessesFound, order: seq<string>)
    requires FoundFor(rs, p, file, m) && ListsInOrder(GraphOf(rs.rules, rs.namespaces), order)
    ensures Ranked(rs, RanksOf(order), Capabilities(rs, p, file, m))
    ensures EveryRecordIsBuilt(rs, RanksOf(order), Capabilities(rs, p, file, m))
  {
    var capabilities := Capabilities(rs, p, file, m);
    forall name, e | e in Recorded(capabilities, name)
      ensures RecordIsRanked(rs, RanksOf(order), name, e) && TreeIsSound(rs, capabilities, e.1)
    {
      DynamicRecordHasGrounds(rs, p, file, m, name, e);
      FoundGroundsAreRanked(rs, p, order, capabilities, name, e);
      DynamicEvidenceIsFound(rs, p, file, m, name, e);
    }
    SoundEvidenceIsBuilt(rs, RanksOf(order), capabilities);
  }
}
