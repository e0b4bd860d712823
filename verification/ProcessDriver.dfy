/** capa-x/src/capabilities/dynamic_analysis.rs: the drivers for processes and for a whole dynamic analysis. */
module ProcessDriver {
  import opened Base
  import opened Features
  import opened FeatureSets
  import opened Rules
  import opened Engine
  import opened RuleIndex
  import opened RuleGraph
  import opened StaticScopes
  import opened MatchingRuleSets
  import opened Promotion
  import opened StaticDriver
  import opened SpanMatcher
  import opened DynamicDriver

  predicate IsThreadUnit(u: Unit) {
    u.scope.ThreadScope? && forall call | call in u.parts :: IsCall(call)
  }

  /** A process of threads, of calls. */
  predicate IsProcess(u: Unit) {
    u.scope.ProcessScope? && forall thread | thread in u.parts :: IsThreadUnit(thread)
  }

  // ---- the span matches of several threads ----

  /** `m` is what the span matcher recorded over the calls of the thread. */
  ghost predicate SpansOfThread(rs: MatchingRuleSet, p: Program, thread: Unit, m: MatchResults)
    requires p.Valid()
  {
    exists spans :: |spans| == |thread.parts| && AreSpansOf(p, thread.parts, spans) && m == RecordedMatches(rs, spans)
  }

  /** `m` is what was found in the units, one after the other. */
  ghost predicate FoundOneByOne(found: (Unit, MatchResults) -> bool, units: seq<Unit>, m: MatchResults) {
    if units == [] then m == map[]
    else
      exists before, last ::
        && FoundOneByOne(found, units[..|units| - 1], before)
        && found(units[|units| - 1], last)
        && m == ExtendMatches(before, last)
  }

  lemma NextIsFound(found: (Unit, MatchResults) -> bool, units: seq<Unit>, i: nat, before: MatchResults,
                    last: MatchResults)
    requires i < |units| && FoundOneByOne(found, units[..i], before) && found(units[i], last)
    ensures FoundOneByOne(found, units[..i + 1], ExtendMatches(before, last))
  {
    assert units[..i + 1][..i] == units[..i];
  }

  ghost function SpansOf(rs: MatchingRuleSet, p: Program): (Unit, MatchResults) -> bool {
    (thread, m) => p.Valid() && SpansOfThread(rs, p, thread, m)
  }

  ghost predicate SpansOfThreads(rs: MatchingRuleSet, p: Program, threads: seq<Unit>, m: MatchResults) {
    FoundOneByOne(SpansOf(rs, p), threads, m)
  }

  ghost function SpansOfParts(rs: MatchingRuleSet, p: Program): (Unit, MatchResults) -> bool {
    (process: Unit, m) => SpansOfThreads(rs, p, process.parts, m)
  }

  ghost predicate SpansOfProcesses(rs: MatchingRuleSet, p: Program, processes: seq<Unit>, m: MatchResults) {
    FoundOneByOne(SpansOfParts(rs, p), processes, m)
  }

  // ---- the loop over the threads of a process ----

  /** What was found in the threads so far. */
  datatype ThreadsFound = ThreadsFound(threads: MatchResults, spans: MatchResults, calls: MatchResults)

  ghost predicate ThreadsSoFar(rs: MatchingRuleSet, p: Program, threads: seq<Unit>, n: nat, features: FeatureSet,
                               found: ThreadsFound)
    requires n <= |threads|
  {
    && MergesParts(p, threads[..n], features)
    && CollectsParts(p, threads[..n], ThreadScope, found.threads)
    && CollectsParts(p, threads[..n], CallScope, found.calls)
    && (p.Valid() ==> SpansOfThreads(rs, p, threads[..n], found.spans))
  }

  /** The thread driver's report, as the loop over the threads uses it. */
  lemma ReportOfThread(rs: MatchingRuleSet, p: Program, thread: Unit, r: ThreadCapabilities)
    requires p.Valid() && thread.scope.ThreadScope? && exists spans :: ReportsThread(rs, p, thread, spans, r)
    ensures Equivalent(r.features, Scan(p, thread).features)
    ensures r.threads == MatchesOf(p, thread, ThreadScope) && r.calls == MatchesOf(p, thread, CallScope)
    ensures SpansOfThread(rs, p, thread, r.spans)
  {
  }

  lemma NextThreadIsFound(rs: MatchingRuleSet, p: Program, threads: seq<Unit>, i: nat, features: FeatureSet,
                          found: ThreadsFound, r: ThreadCapabilities)
    requires i < |threads| && threads[i].scope.ThreadScope? && ThreadsSoFar(rs, p, threads, i, features, found)
    requires p.Valid() ==> exists spans :: ReportsThread(rs, p, threads[i], spans, r)
    ensures ThreadsSoFar(rs, p, threads, i + 1, Merge(features, r.features), ThreadsFound(
                           ExtendMatches(found.threads, r.threads), ExtendMatches(found.spans, r.spans),
                           ExtendMatches(found.calls, r.calls)))
  {
    if p.Valid() {
      ReportOfThread(rs, p, threads[i], r);
      NextIsFound(SpansOf(rs, p), threads, i, found.spans, r.spans);
    }
    MergesNextPart(p, threads, i, features, r.features);
    CollectsNextPart(p, threads, i, ThreadScope, found.threads, r.threads);
    CollectsNextPart(p, threads, i, CallScope, found.calls, r.calls);
  }

  method NextThread(rs: MatchingRuleSet, ghost p: Program, threads: seq<Unit>, i: nat, globals: seq<Feature>,
                    features: FeatureMap, found: ThreadsFound)
    returns (r: Outcome<ThreadsFound, EngineError>)
    requires Usable(rs) && p == Program(rs.byScope, globals) && i < |threads| && IsThreadUnit(threads[i])
    requires features.Valid() && ThreadsSoFar(rs, p, threads, i, features.View(), found)
    modifies features
    ensures features.Valid() && (p.Valid() ==> r.Ok?)
    ensures r.Ok? ==> ThreadsSoFar(rs, p, threads, i + 1, features.View(), r.value)
  {
    var thread := FindThreadCapabilities(rs, threads[i], globals);
    if thread.Err? { return Err(thread.error); }
    var t := thread.value;
    NextThreadIsFound(rs, p, threads, i, features.View(), found, t);
    features.Absorb(t.features);
    var ts := ExtendWith(found.threads, t.threads);
    var spans := ExtendWith(found.spans, t.spans);
    var calls := ExtendWith(found.calls, t.calls);
    r := Ok(ThreadsFound(ts, spans, calls));
  }

  /** The loop over the threads of a process; `features` gathers what they leave. */
  method WalkThreads(rs: MatchingRuleSet, threads: seq<Unit>, globals: seq<Feature>, features: FeatureMap)
    returns (r: Outcome<ThreadsFound, EngineError>)
    requires Usable(rs) && forall thread | thread in threads :: IsThreadUnit(thread)
    requires features.Valid() && features.View() == EMPTY
    modifies features
    ensures features.Valid() && (Program(rs.byScope, globals).Valid() ==> r.Ok?)
    ensures r.Ok? ==>
              ThreadsSoFar(rs, Program(rs.byScope, globals), threads, |threads|, features.View(), r.value)
  {
    ghost var p := Program(rs.byScope, globals);
    var found := ThreadsFound(map[], map[], map[]);
    NoPartsYet(p, threads);
    for i := 0 to |threads|
      invariant features.Valid() && ThreadsSoFar(rs, p, threads, i, features.View(), found)
    {
      var next := NextThread(rs, p, threads, i, globals, features, found);
      if next.Err? { return next; }
      found := next.value;
    }
    r := Ok(found);
  }

  // ---- a process ----

  datatype ProcessCapabilities = ProcessCapabilities(processes: MatchResults, found: ThreadsFound, featureCount: nat)

  /** What the process driver reports: the matches of its own scope and below, and the features it was matched on. */
  ghost predicate ReportsProcess(rs: MatchingRuleSet, p: Program, process: Unit, r: ProcessCapabilities)
    requires p.Valid()
  {
    && r.processes == MatchesOf(p, process, ProcessScope)
    && r.found.threads == MatchesOf(p, process, ThreadScope)
    && r.found.calls == MatchesOf(p, process, CallScope)
    && SpansOfThreads(rs, p, process.parts, r.found.spans)
    && r.featureCount == |Before(p, process).locs|
  }

  lemma AllThreadsFound(rs: MatchingRuleSet, p: Program, threads: seq<Unit>, features: FeatureSet, found: ThreadsFound)
    requires p.Valid() && ThreadsSoFar(rs, p, threads, |threads|, features, found)
    ensures MergesParts(p, threads, features) && SpansOfThreads(rs, p, threads, found.spans)
    ensures found.threads == MatchesOfParts(p, threads, ThreadScope)
    ensures found.calls == MatchesOfParts(p, threads, CallScope)
  {
    assert threads[..|threads|] == threads;
  }

  lemma MatchesBelow(p: Program, u: Unit, scope: Scope)
    requires p.Valid() && u.scope != scope
    ensures MatchesOf(p, u, scope) == MatchesOfParts(p, u.parts, scope)
  {
  }

  lemma ProcessIsReported(rs: MatchingRuleSet, p: Program, process: Unit, features: FeatureSet, found: ThreadsFound)
    requires p.Valid() && process.scope.ProcessScope?
    requires ThreadsSoFar(rs, p, process.parts, |process.parts|, features, found)
    ensures MergesParts(p, process.parts, features)
    ensures ReportsProcess(rs, p, process,
                           ProcessCapabilities(Scan(p, process).results, found, |Before(p, process).locs|))
  {
    AllThreadsFound(rs, p, process.parts, features, found);
    MatchesBelow(p, process, ThreadScope);
    MatchesBelow(p, process, CallScope);
  }

  method FindProcessCapabilities(rs: MatchingRuleSet, process: Unit, globals: seq<Feature>)
    returns (r: Outcome<ProcessCapabilities, EngineError>)
    requires Usable(rs) && IsProcess(process)
    ensures var p := Program(rs.byScope, globals); p.Valid() ==> r.Ok? && ReportsProcess(rs, p, process, r.value)
  {
    var features := new FeatureMap();
    var walked := WalkThreads(rs, process.parts, globals, features);
    if walked.Err? { return Err(walked.error); }
    r := FinishProcess(rs, process, globals, features, walked.value);
  }

  /** The process's own features and matches, once those of its threads are in. */
  method FinishProcess(rs: MatchingRuleSet, process: Unit, globals: seq<Feature>, features: FeatureMap,
                       found: ThreadsFound)
    returns (r: Outcome<ProcessCapabilities, EngineError>)
    requires Usable(rs) && process.scope.ProcessScope? && features.Valid()
    requires ThreadsSoFar(rs, Program(rs.byScope, globals), process.parts, |process.parts|, features.View(), found)
    modifies features
    ensures var p := Program(rs.byScope, globals); p.Valid() ==> r.Ok? && ReportsProcess(rs, p, process, r.value)
  {
    ghost var p := Program(rs.byScope, globals);
    if p.Valid() {
      ProcessIsReported(rs, p, process, features.View(), found);
      SeededIsBefore(p, process, features.View());
    }
    Seed(features, process.features, globals);
    var seen := features.View();
    var matches := MatchScopeResults(rs, p, ProcessScope, seen, process.addr);
    if matches.Err? { return Err(matches.error); }
    if p.Valid() {
      ScanAtIsOrderIndependent(p, ProcessScope, seen, Before(p, process), process.addr);
    }
    r := Ok(ProcessCapabilities(matches.value, found, |seen.locs|));
  }

  // ---- the loop over the processes ----

  /** A file of processes. */
  predicate IsDynamicFile(u: Unit) {
    u.scope.FileScope? && u.addr == NoAddress && forall process | process in u.parts :: IsProcess(process)
  }

  /** What was found in the processes so far, and the feature count of each. */
  datatype ProcessesFound = ProcessesFound(processes: MatchResults, found: ThreadsFound, counts: seq<(Address, nat)>)

  ghost function ProcessCounts(p: Program, processes: seq<Unit>): seq<(Address, nat)>
    requires p.Valid()
  {
    if processes == [] then []
    else
      var last := processes[|processes| - 1];
      ProcessCounts(p, processes[..|processes| - 1]) + [(last.addr, |Before(p, last).locs|)]
  }

  ghost predicate ProcessesSoFar(rs: MatchingRuleSet, p: Program, processes: seq<Unit>, n: nat, m: ProcessesFound)
    requires n <= |processes|
  {
    && CollectsParts(p, processes[..n], ProcessScope, m.processes)
    && CollectsParts(p, processes[..n], ThreadScope, m.found.threads)
    && CollectsParts(p, processes[..n], CallScope, m.found.calls)
    && (p.Valid() ==>
          SpansOfProcesses(rs, p, processes[..n], m.found.spans) && m.counts == ProcessCounts(p, processes[..n]))
  }

  /** `m` with what was found in one more process. */
  function WithProcess(m: ProcessesFound, addr: Address, r: ProcessCapabilities): ProcessesFound {
    ProcessesFound(
      ExtendMatches(m.processes, r.processes),
      ThreadsFound(ExtendMatches(m.found.threads, r.found.threads), ExtendMatches(m.found.spans, r.found.spans),
                   ExtendMatches(m.found.calls, r.found.calls)),
      m.counts + [(addr, r.featureCount)])
  }

  lemma NextProcessIsFound(rs: MatchingRuleSet, p: Program, processes: seq<Unit>, i: nat, m: ProcessesFound,
                           r: ProcessCapabilities)
    requires i < |processes| && ProcessesSoFar(rs, p, processes, i, m)
    requires p.Valid() ==> ReportsProcess(rs, p, processes[i], r)
    ensures ProcessesSoFar(rs, p, processes, i + 1, WithProcess(m, processes[i].addr, r))
  {
    CollectsNextPart(p, processes, i, ProcessScope, m.processes, r.processes);
    CollectsNextPart(p, processes, i, ThreadScope, m.found.threads, r.found.threads);
    CollectsNextPart(p, processes, i, CallScope, m.found.calls, r.found.calls);
    if p.Valid() {
      NextIsFound(SpansOfParts(rs, p), processes, i, m.found.spans, r.found.spans);
      assert processes[..i + 1][..i] == processes[..i];
    }
  }

  method FindProcesses(rs: MatchingRuleSet, processes: seq<Unit>, globals: seq<Feature>)
    returns (r: Outcome<ProcessesFound, EngineError>)
    requires Usable(rs) && forall process | process in processes :: IsProcess(process)
    ensures Program(rs.byScope, globals).Valid() ==> r.Ok?
    ensures r.Ok? ==> ProcessesSoFar(rs, Program(rs.byScope, globals), processes, |processes|, r.value)
  {
    ghost var p := Program(rs.byScope, globals);
    var m := ProcessesFound(map[], ThreadsFound(map[], map[], map[]), []);
    NoPartsYet(p, processes);
    for i := 0 to |processes|
      invariant ProcessesSoFar(rs, p, processes, i, m)
    {
      var next := NextProcess(rs, p, processes, i, globals, m);
      if next.Err? { return next; }
      m := next.value;
    }
    r := Ok(m);
  }

  method NextProcess(rs: MatchingRuleSet, ghost p: Program, processes: seq<Unit>, i: nat, globals: seq<Feature>,
                     m: ProcessesFound)
    returns (r: Outcome<ProcessesFound, EngineError>)
    requires Usable(rs) && p == Program(rs.byScope, globals) && i < |processes| && IsProcess(processes[i])
    requires ProcessesSoFar(rs, p, processes, i, m)
    ensures p.Valid() ==> r.Ok?
    ensures r.Ok? ==> ProcessesSoFar(rs, p, processes, i + 1, r.value)
  {
    var process := FindProcessCapabilities(rs, processes[i], globals);
    if process.Err? { return Err(process.error); }
    var c := process.value;
    NextProcessIsFound(rs, p, processes, i, m, c);
    var ps := ExtendWith(m.processes, c.processes);
    var ts := ExtendWith(m.found.threads, c.found.threads);
    var spans := ExtendWith(m.found.spans, c.found.spans);
    var calls := ExtendWith(m.found.calls, c.found.calls);
    r := Ok(ProcessesFound(ps, ThreadsFound(ts, spans, calls), m.counts + [(processes[i].addr, c.featureCount)]));
  }

  // ---- the file ----

  /** What the scopes below publish to the file, scope by scope. */
  function Published4(rs: MatchingRuleSet, calls: MatchResults, spans: MatchResults, threads: MatchResults,
                      processes: MatchResults): FeatureSet
  {
    var a := PublishEach(EMPTY, rs.rules, MatchAddresses(calls));
    var b := PublishEach(a, rs.rules, MatchAddresses(spans));
    var c := PublishEach(b, rs.rules, MatchAddresses(threads));
    PublishEach(c, rs.rules, MatchAddresses(processes))
  }

  function LowerOf(rs: MatchingRuleSet, m: ProcessesFound): FeatureSet {
    Published4(rs, m.found.calls, m.found.spans, m.found.threads, m.processes)
  }

  /** Publish the matches of one scope, keeping equivalence to the specified set. */
  method PublishMore(rs: MatchingRuleSet, fs: FeatureMap, matches: MatchResults, ghost spec: FeatureSet)
    requires UniqueNames(rs.rules) && fs.Valid() && Equivalent(fs.View(), spec)
    modifies fs
    ensures fs.Valid() && Equivalent(fs.View(), PublishEach(spec, rs.rules, MatchAddresses(matches)))
  {
    ghost var before, at := fs.View(), MatchAddresses(matches);
    PublishMatches(rs.rules, fs, matches);
    PublishEachPublishes(before, rs.rules, at);
    PublicationIsDetermined(before, rs.rules, at, fs.View(), PublishEach(before, rs.rules, at));
    PublishEachEquivalent(before, spec, rs.rules, at);
  }

  method CollectPublished(rs: MatchingRuleSet, m: ProcessesFound) returns (lower: FeatureSet)
    requires UniqueNames(rs.rules)
    ensures Equivalent(lower, LowerOf(rs, m))
  {
    var features := new FeatureMap();
    ghost var spec := EMPTY;
    PublishMore(rs, features, m.found.calls, spec);
    spec := PublishEach(spec, rs.rules, MatchAddresses(m.found.calls));
    PublishMore(rs, features, m.found.spans, spec);
    spec := PublishEach(spec, rs.rules, MatchAddresses(m.found.spans));
    PublishMore(rs, features, m.found.threads, spec);
    spec := PublishEach(spec, rs.rules, MatchAddresses(m.found.threads));
    PublishMore(rs, features, m.processes, spec);
    lower := features.View();
  }

  datatype DynamicCapabilities = DynamicCapabilities(
    matches: MatchResults,
    fileFeatureCount: nat,
    processFeatureCounts: seq<(Address, nat)>)

  /** The file's scan, on its own features and what the scopes below published. */
  function FileScan(rs: MatchingRuleSet, p: Program, file: Unit, m: ProcessesFound): ScanState
    requires p.Valid()
  {
    ScanAt(p, FileScope, FileFeatures(p, file, LowerOf(rs, m)), NoAddress)
  }

  /** The matches of every scope, scope by scope. */
  function AllMatches(m: ProcessesFound, atFile: MatchResults): MatchResults {
    ExtendMatches(
      ExtendMatches(
        ExtendMatches(ExtendMatches(ExtendMatches(map[], m.found.calls), m.found.spans), m.found.threads),
        m.processes),
      atFile)
  }

  method CollectMatches(m: ProcessesFound, atFile: MatchResults) returns (matches: MatchResults)
    ensures matches == AllMatches(m, atFile)
  {
    matches := ExtendWith(map[], m.found.calls);
    matches := ExtendWith(matches, m.found.spans);
    matches := ExtendWith(matches, m.found.threads);
    matches := ExtendWith(matches, m.processes);
    matches := ExtendWith(matches, atFile);
  }

  /** What the dynamic driver reports of a file, given what was found in its processes. */
  ghost predicate ReportsDynamic(rs: MatchingRuleSet, p: Program, file: Unit, m: ProcessesFound, r: DynamicCapabilities)
    requires p.Valid()
  {
    && ProcessesSoFar(rs, p, file.parts, |file.parts|, m)
    && r.matches == AllMatches(m, FileScan(rs, p, file, m).results)
    && r.fileFeatureCount == |FileFeatures(p, file, LowerOf(rs, m)).locs|
    && r.processFeatureCounts == ProcessCounts(p, file.parts)
  }

  lemma CountsAreOfAll(rs: MatchingRuleSet, p: Program, processes: seq<Unit>, m: ProcessesFound)
    requires p.Valid() && ProcessesSoFar(rs, p, processes, |processes|, m)
    ensures m.counts == ProcessCounts(p, processes)
  {
    assert processes[..|processes|] == processes;
  }

  /** `find_dynamic_capabilities`: the specified matches of every scope, whatever order the hash maps are walked in. */
  method FindDynamicCapabilities(rs: MatchingRuleSet, file: Unit, globals: seq<Feature>)
    returns (r: Outcome<DynamicCapabilities, EngineError>)
    requires Usable(rs) && IsDynamicFile(file)
    ensures var p := Program(rs.byScope, globals);
            p.Valid() ==> r.Ok? && exists m :: ReportsDynamic(rs, p, file, m, r.value)
  {
    ghost var p := Program(rs.byScope, globals);
    var found := FindProcesses(rs, file.parts, globals);
    if found.Err? { return Err(found.error); }
    var m := found.value;
    var lower := CollectPublished(rs, m);
    var atFile := FindFileCapabilities(rs, file, globals, lower, LowerOf(rs, m));
    if atFile.Err? { return Err(atFile.error); }
    var matches := CollectMatches(m, atFile.value.0);
    r := Ok(DynamicCapabilities(matches, atFile.value.1, m.counts));
    if p.Valid() {
      CountsAreOfAll(rs, p, file.parts, m);
      assert ReportsDynamic(rs, p, file, m, r.value);
    }
  }
}
