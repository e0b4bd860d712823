/** The whole dynamic pipeline: from parsed rules and the features of processes, threads and calls to the document. */
module DynamicReport {
  import opened Base
  import opened Features
  import opened Rules
  import opened Engine
  import opened StaticScopes
  import opened UnitContents
  import opened ScopeSemantics
  import opened Extraction
  import opened ExtractionSemantics
  import opened MatchingRules
  import opened MatchingRuleSets
  import opened RuleMeaning
  import opened StaticDriver
  import opened Evidence
  import opened StaticEvidence
  import opened StaticReport
  import opened ReportedEvidence
  import opened DynamicDriver
  import opened ProcessDriver
  import opened DynamicEvidence

  /** The extracted features of a dynamic analysis: ready processes, and no `match` features of the file itself. */
  ghost predicate IsReadyFile(p: Program, file: Unit) {
    && file.scope.FileScope? && file.addr == NoAddress
    && (forall process | process in file.parts :: IsReadyProcess(p, process))
    && forall e | e in Entries(p, file) :: !e.1.MatchedRule?
  }

  lemma ReadyIsDynamic(p: Program, file: Unit)
    requires IsReadyFile(p, file)
    ensures IsDynamicFile(file)
  {
    forall process, thread | process in file.parts && thread in process.parts ensures IsThreadUnit(thread) {
      assert IsReadyProcess(p, process) && AreThreadCalls(p, thread.parts);
      forall call | call in thread.parts ensures IsCall(call) {
        var i :| 0 <= i < |thread.parts| && thread.parts[i] == call;
        assert IsLocated(p, call);
      }
    }
  }

  // ---- rules of calls, threads and processes are recorded where they are meant ----

  /** The rule is matched at calls, threads and processes only. */
  predicate IsOfUnits(rule: Rule) {
    && rule.scopes.static_ != Some(SpanOfCallsScope) && rule.scopes.dynamic != Some(SpanOfCallsScope)
    && rule.scopes.static_ != Some(FileScope) && rule.scopes.dynamic != Some(FileScope)
  }

  /** The verdicts give each rule the verdict of its body within each process. */
  ghost predicate SolvesBelow(p: Program, rules: seq<Rule>, m: Verdicts, processes: seq<Unit>) {
    forall process | process in processes :: Solves(p, rules, m, process)
  }

  /** The units of the processes at which the rule, as written, holds under the verdicts `m`. */
  ghost function MeantBelow(p: Program, rules: seq<Rule>, m: Verdicts, rule: Rule, processes: seq<Unit>): set<Unit> {
    set u | u in UnitsIn(processes) && (rule.scopes.static_ == Some(u.scope) || rule.scopes.dynamic == Some(u.scope))
            && Means(p, rules, m, rule.body, u)
  }

  lemma BuiltIsNamed(rs: MatchingRuleSet, rules: seq<Rule>, rule: Rule)
    requires FreshNames(rules) && rs.BuiltFor(Expand(rules)) && rule in rules
    ensures Named(rs.rules, rule.name).Some? && Named(rs.rules, rule.name).value.scopes == rule.scopes
  {
    ExpandCovers(rules, rule);
    OnlyOneIsNamed(rs.rules, Finished(rule));
  }

  lemma NotRecorded(results: MatchResults, name: string)
    requires name !in results
    ensures RecordsAt(results, name, {})
  {
  }

  /** Neither the spans nor the file list a rule of calls, threads or processes. */
  lemma SpansRecordNone(rs: MatchingRuleSet, p: Program, file: Unit, m: ProcessesFound, name: string)
    requires FoundFor(rs, p, file, m) && Named(rs.rules, name).Some? && IsOfUnits(Named(rs.rules, name).value)
    ensures RecordsAt(m.found.spans, name, {})
  {
    if name in m.found.spans {
      SpanMatchedHasScope(rs, p, file, m, name);
    } else {
      NotRecorded(m.found.spans, name);
    }
  }

  lemma FileRecordsNone(rs: MatchingRuleSet, p: Program, file: Unit, m: ProcessesFound, name: string)
    requires RulesAreReady(rs, p) && Named(rs.rules, name).Some? && IsOfUnits(Named(rs.rules, name).value)
    ensures RecordsAt(FileScan(rs, p, file, m).results, name, {})
  {
    if name in FileScan(rs, p, file, m).results {
      ScannedHasScope(rs, p, FileScope, FileFeatures(p, file, LowerOf(rs, m)), NoAddress, name);
    } else {
      NotRecorded(FileScan(rs, p, file, m).results, name);
    }
  }

  lemma ExtendByNone(a: MatchResults, b: MatchResults, name: string, us: set<Unit>)
    requires RecordsAt(a, name, us) && RecordsAt(b, name, {})
    ensures RecordsAt(ExtendMatches(a, b), name, us)
  {
    ExtendRecords(a, b, name, us, {});
    assert us + {} == us;
  }

  lemma FiveRecords(m: ProcessesFound, atFile: MatchResults, name: string, calls: set<Unit>, threads: set<Unit>,
                    processes: set<Unit>)
    requires RecordsAt(m.found.calls, name, calls) && RecordsAt(m.found.spans, name, {})
    requires RecordsAt(m.found.threads, name, threads) && RecordsAt(m.processes, name, processes)
    requires RecordsAt(atFile, name, {})
    ensures RecordsAt(AllMatches(m, atFile), name, calls + threads + processes)
  {
    var c := ExtendMatches(ExtendMatches(ExtendMatches(map[], m.found.calls), m.found.spans), m.found.threads);
    ThreeRecords(m.found, name, calls, threads);
    ExtendRecords(c, m.processes, name, calls + threads, processes);
    ExtendByNone(ExtendMatches(c, m.processes), atFile, name, calls + threads + processes);
  }

  lemma ThreeRecords(found: ThreadsFound, name: string, calls: set<Unit>, threads: set<Unit>)
    requires RecordsAt(found.calls, name, calls) && RecordsAt(found.spans, name, {})
    requires RecordsAt(found.threads, name, threads)
    ensures RecordsAt(ExtendMatches(ExtendMatches(ExtendMatches(map[], found.calls), found.spans), found.threads), name,
                      calls + threads)
  {
    var a := ExtendMatches(map[], found.calls);
    ExtendRecords(map[], found.calls, name, {}, calls);
    assert {} + calls == calls;
    ExtendByNone(a, found.spans, name, calls);
    ExtendRecords(ExtendMatches(a, found.spans), found.threads, name, calls, threads);
  }

  /** Such a rule is recorded exactly at the addresses of the units where it matched. */
  lemma UnitRuleIsRecorded(rs: MatchingRuleSet, p: Program, file: Unit, m: ProcessesFound, name: string)
    requires FoundFor(rs, p, file, m) && Named(rs.rules, name).Some? && IsOfUnits(Named(rs.rules, name).value)
    ensures RecordsAt(Capabilities(rs, p, file, m), name, MatchedAnywhere(p, UnitsIn(file.parts), name))
  {
    var units := UnitsIn(file.parts);
    var calls, threads := MatchedUnits(p, units, CallScope, name), MatchedUnits(p, units, ThreadScope, name);
    var processes := MatchedUnits(p, units, ProcessScope, name);
    forall scope | IsUnitScope(scope) ensures RecordsAt(OfUnits(m, scope), name, MatchedUnits(p, units, scope, name)) {
      UnitsAreCollected(rs, p, file, m, scope);
      MatchesOfPartsContents(p, file.parts, scope, name);
    }
    assert RecordsAt(OfUnits(m, CallScope), name, calls);
    assert RecordsAt(OfUnits(m, ThreadScope), name, threads);
    assert RecordsAt(OfUnits(m, ProcessScope), name, processes);
    SpansRecordNone(rs, p, file, m, name);
    FileRecordsNone(rs, p, file, m, name);
    FiveRecords(m, FileScan(rs, p, file, m).results, name, calls, threads, processes);
    ScopesBelowProcesses(p, file.parts);
    UnitsHaveThreeScopes(p, units, name);
  }

  lemma ScopesBelowProcesses(p: Program, processes: seq<Unit>)
    requires forall process | process in processes :: IsReadyProcess(p, process)
    ensures forall v | v in UnitsIn(processes) :: IsUnitScope(v.scope)
  {
    UnitsInParts(processes);
    forall v | v in UnitsIn(processes) ensures IsUnitScope(v.scope) {
      var process :| process in processes && v in Units(process);
      UnitScope(p, process, v);
    }
  }

  lemma UnitsHaveThreeScopes(p: Program, units: set<Unit>, name: string)
    requires p.Valid() && forall v | v in units :: IsUnitScope(v.scope)
    ensures MatchedAnywhere(p, units, name)
            == MatchedUnits(p, units, CallScope, name) + MatchedUnits(p, units, ThreadScope, name)
               + MatchedUnits(p, units, ProcessScope, name)
  {
  }

  /** Within the processes a rule matches exactly where it is meant to hold. */
  lemma MatchedBelowIsMeant(rs: MatchingRuleSet, rules: seq<Rule>, globals: seq<Feature>, m: Verdicts, rule: Rule,
                            file: Unit)
    requires WellFormedRules(rules) && FreshNames(rules) && rs.BuiltFor(Expand(rules)) && rule in rules
    requires IsReadyFile(Program(rs.byScope, globals), file)
    requires SolvesBelow(Program(rs.byScope, globals), rules, m, file.parts)
    ensures var p := Program(rs.byScope, globals);
            p.Valid()
            && MatchedAnywhere(p, UnitsIn(file.parts), rule.name) == MeantBelow(p, rules, m, rule, file.parts)
  {
    var p := Program(rs.byScope, globals);
    BuiltCompiles(rs, rules, globals);
    UnitsInParts(file.parts);
    forall process | process in file.parts
      ensures MatchedAnywhere(p, Units(process), rule.name) == MeantUnits(p, rules, m, rule, process)
    {
      assert IsReadyProcess(p, process);
      MeantAreMatched(rs, rules, globals, m, rule, process);
    }
    forall u ensures u in MatchedAnywhere(p, UnitsIn(file.parts), rule.name)
                     <==> u in MeantBelow(p, rules, m, rule, file.parts)
    {
      if process :| process in file.parts && u in Units(process) {
        assert u in MatchedAnywhere(p, Units(process), rule.name) <==> u in MeantUnits(p, rules, m, rule, process);
      }
    }
  }

  /** The document shows each rule of calls, threads and processes at exactly the addresses where it holds. */
  ghost predicate ReportsBelow(document: Document, p: Program, rules: seq<Rule>, m: Verdicts, file: Unit) {
    forall rule | rule in rules && IsOfUnits(rule) ::
      Reports(document, rule.name, MeantBelow(p, rules, m, rule, file.parts))
  }

  lemma DynamicIsMeant(rs: MatchingRuleSet, rules: seq<Rule>, globals: seq<Feature>, m: Verdicts, rule: Rule,
                       file: Unit, found: ProcessesFound)
    requires WellFormedRules(rules) && FreshNames(rules) && rs.BuiltFor(Expand(rules))
    requires rule in rules && IsOfUnits(rule) && FoundFor(rs, Program(rs.byScope, globals), file, found)
    requires SolvesBelow(Program(rs.byScope, globals), rules, m, file.parts)
    ensures var p := Program(rs.byScope, globals);
            p.Valid()
            && RecordsAt(Capabilities(rs, p, file, found), rule.name, MeantBelow(p, rules, m, rule, file.parts))
  {
    BuiltIsNamed(rs, rules, rule);
    MatchedBelowIsMeant(rs, rules, globals, m, rule, file);
    UnitRuleIsRecorded(rs, Program(rs.byScope, globals), file, found, rule.name);
  }

  /**
   The document shows what was found in the processes: its entries are the document trees of all recorded matches. Of
   each such match `DynamicRecordExplains` says what it explains.
   */
  ghost predicate ShowsFound(rs: MatchingRuleSet, p: Program, file: Unit, m: ProcessesFound, document: Document) {
    FoundFor(rs, p, file, m) && DocumentTells(rs, Capabilities(rs, p, file, m), document)
  }

  /**
   Dynamic analysis of a file with a rule set built from `rules`: it never fails. There are verdicts that give each
   rule, as it was written, the verdict of its body within every process; and for whatever verdicts do so, the document
   shows each rule of calls, threads and processes at exactly the addresses of the units where it holds. It shows no
   rules but written ones, and its entries are the document trees of what was found.
   */
  method AnalyzeDynamic(rs: MatchingRuleSet, ghost rules: seq<Rule>, file: Unit, globals: seq<Feature>)
    returns (document: Document)
    requires WellFormedRules(rules) && rs.BuiltFor(Expand(rules)) && IsReadyFile(Program(rs.byScope, globals), file)
    ensures var p := Program(rs.byScope, globals);
            && (exists m :: SolvesBelow(p, rules, m, file.parts))
            && forall m | SolvesBelow(p, rules, m, file.parts) :: ReportsBelow(document, p, rules, m, file)
    ensures ShowsWritten(document, rules)
    ensures exists m :: ShowsFound(rs, Program(rs.byScope, globals), file, m, document)
  {
    ghost var p := Program(rs.byScope, globals);
    ReadyIsDynamic(p, file);
    ghost var order := RulesArePrepared(rs, rules, globals);
    DriversSolveBelow(rs, rules, globals, file);
    var found := FindDynamicCapabilities(rs, file, globals);
    ghost var m :| ReportsDynamic(rs, p, file, m, found.value);
    DynamicDocumentIsBuilt(rs, p, file, m, order);
    document := BuildDocument(rs, found.value.matches, RanksOf(order));
    DocumentIsOfFound(rs, rules, p, file, m, order, document);
    forall v | SolvesBelow(p, rules, v, file.parts) ensures ReportsBelow(document, p, rules, v, file) {
      DocumentIsMeant(rs, rules, globals, v, file, m, order, document);
    }
  }

  lemma DocumentIsOfFound(rs: MatchingRuleSet, rules: seq<Rule>, p: Program, file: Unit, m: ProcessesFound,
                          order: seq<string>, document: Document)
    requires FoundFor(rs, p, file, m) && rs.rules == Expand(rules)
    requires Ranked(rs, RanksOf(order), Capabilities(rs, p, file, m))
    requires Documents(rs, RanksOf(order), Capabilities(rs, p, file, m), document)
    ensures ShowsWritten(document, rules) && ShowsFound(rs, p, file, m, document)
  {
    DocumentsWritten(rs, RanksOf(order), Capabilities(rs, p, file, m), document, rules);
    BuiltDocumentTells(rs, RanksOf(order), Capabilities(rs, p, file, m), document);
  }

  lemma DocumentIsMeant(rs: MatchingRuleSet, rules: seq<Rule>, globals: seq<Feature>, v: Verdicts, file: Unit,
                        m: ProcessesFound, order: seq<string>, document: Document)
    requires WellFormedRules(rules) && FreshNames(rules) && rs.BuiltFor(Expand(rules))
    requires FoundFor(rs, Program(rs.byScope, globals), file, m)
    requires SolvesBelow(Program(rs.byScope, globals), rules, v, file.parts)
    requires Ranked(rs, RanksOf(order), Capabilities(rs, Program(rs.byScope, globals), file, m))
    requires Documents(rs, RanksOf(order), Capabilities(rs, Program(rs.byScope, globals), file, m), document)
    ensures ReportsBelow(document, Program(rs.byScope, globals), rules, v, file)
  {
    var p := Program(rs.byScope, globals);
    forall rule | rule in rules && IsOfUnits(rule)
      ensures Reports(document, rule.name, MeantBelow(p, rules, v, rule, file.parts))
    {
      DynamicIsMeant(rs, rules, globals, v, rule, file, m);
      OriginalIsReported(rs, RanksOf(order), Capabilities(rs, p, file, m), document, rules, rule,
                         MeantBelow(p, rules, v, rule, file.parts));
    }
  }

  lemma DriversSolveBelow(rs: MatchingRuleSet, rules: seq<Rule>, globals: seq<Feature>, file: Unit)
    requires WellFormedRules(rules) && FreshNames(rules) && rs.BuiltFor(Expand(rules))
    requires IsReadyFile(Program(rs.byScope, globals), file)
    ensures var p := Program(rs.byScope, globals);
            p.Valid() && SolvesBelow(p, rules, DriverVerdicts(p), file.parts)
  {
    BuiltCompiles(rs, rules, globals);
    forall process | process in file.parts
      ensures Solves(Program(rs.byScope, globals), rules, DriverVerdicts(Program(rs.byScope, globals)), process)
    {
      assert IsReadyProcess(Program(rs.byScope, globals), process);
      DriversSolve(rs, rules, globals, process);
    }
  }
}
