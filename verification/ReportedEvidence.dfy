/**
 From recorded matches to the document: every recorded match explains its rule's body on the features that were scanned,
 and every entry of the document tells the match that it shows.
 */
module ReportedEvidence {
  import opened Base
  import opened Features
  import opened FeatureSets
  import opened Rules
  import opened Engine
  import opened StaticScopes
  import opened MatchingRules
  import opened MatchingRuleSets
  import opened StaticDriver
  import opened Evidence
  import opened StaticEvidence
  import opened SpanEvidence
  import opened DynamicDriver
  import opened ThreadEvidence
  import opened ProcessDriver
  import opened DynamicEvidence
  import opened Explanations
  import opened RecordedEvidence
  import opened DocumentTrees
  import Wire

  // ---- recorded matches explain ----

  /** The tree explains the body of the rule so named. */
  ghost predicate ExplainsNamed(rs: MatchingRuleSet, name: string, fs: FeatureSet, m: MatchResult) {
    Named(rs.rules, name).Some? && Explains(Named(rs.rules, name).value.body, fs, m)
  }

  lemma ScanRecordExplains(rs: MatchingRuleSet, p: Program, scope: Scope, fs: FeatureSet, addr: Address, name: string,
                           e: (Address, MatchResult))
    requires RulesAreReady(rs, p) && e in Recorded(ScanAt(p, scope, fs, addr).results, name)
    ensures e.0 == addr && ExplainsNamed(rs, name, ScanAt(p, scope, fs, addr).features, e.1)
  {
    var st := ScanAt(p, scope, fs, addr);
    ScanIsExplained(p, scope, fs, addr, name);
    assert e == st.results[name][0];
    var rule :| rule in p.RulesAt(scope) && ExplainsRule(rule, st, addr, name, e);
    ScopeIsDrawn(rs, p, scope);
    OnlyOneIsNamed(rs.rules, rule);
  }

  /** `m` explains the rule on the features that the scan of a unit of the file left. */
  ghost predicate ExplainedByUnit(rs: MatchingRuleSet, p: Program, units: set<Unit>, name: string,
                                  e: (Address, MatchResult))
    requires p.Valid()
  {
    exists u | u in units :: e.0 == u.addr && ExplainsNamed(rs, name, Scan(p, u).features, e.1)
  }

  /** Every match that a static analysis records explains the rule's body on the features of the unit it is from. */
  lemma StaticRecordExplains(rs: MatchingRuleSet, p: Program, file: Unit, name: string, e: (Address, MatchResult))
    requires Ready(rs, p, file) && e in Recorded(StaticMatches(p, file), name)
    ensures ExplainedByUnit(rs, p, Units(file), name, e)
  {
    StaticRecordOrigin(p, file, name, e);
    var u :| u in Units(file) && e in Recorded(Scan(p, u).results, name);
    ScanRecordExplains(rs, p, u.scope, Before(p, u), u.addr, name, e);
  }

  /** `e` explains the rule on what the last 20 calls of a thread left, and what the scan of their span published. */
  ghost predicate ExplainedBySpan(rs: MatchingRuleSet, p: Program, calls: seq<Unit>, name: string,
                                  e: (Address, MatchResult))
    requires p.Valid()
  {
    exists t: nat, current: FeatureSet | t < |calls| && HasLast(current.locs, LeftAt(p, calls[..t + 1])) ::
      && e.0 == calls[t].addr
      && ExplainsNamed(rs, name, ScanAt(p, SpanOfCallsScope, current, e.0).features, e.1)
  }

  ghost predicate ExplainedBelow(rs: MatchingRuleSet, p: Program, processes: seq<Unit>, name: string,
                                 e: (Address, MatchResult))
    requires p.Valid()
  {
    || ExplainedByUnit(rs, p, UnitsIn(processes), name, e)
    || exists process, thread | process in processes && thread in process.parts ::
         ExplainedBySpan(rs, p, thread.parts, name, e)
  }

  /** Every match recorded at calls, spans, threads and processes explains the rule's body on what was scanned there. */
  lemma UnitRecordExplains(rs: MatchingRuleSet, p: Program, file: Unit, m: ProcessesFound, scope: Scope, name: string,
                           e: (Address, MatchResult))
    requires FoundFor(rs, p, file, m) && IsUnitScope(scope) && e in Recorded(OfUnits(m, scope), name)
    ensures ExplainedByUnit(rs, p, UnitsIn(file.parts), name, e)
  {
    UnitsAreCollected(rs, p, file, m, scope);
    PartsRecordOrigin(p, file.parts, scope, name, e);
    var v :| v in UnitsIn(file.parts) && e in Recorded(Scan(p, v).results, name);
    ScanRecordExplains(rs, p, v.scope, Before(p, v), v.addr, name, e);
  }

  lemma SpanRecordExplains(rs: MatchingRuleSet, p: Program, file: Unit, m: ProcessesFound, name: string,
                           e: (Address, MatchResult))
    requires FoundFor(rs, p, file, m) && e in Recorded(m.found.spans, name)
    ensures ExplainedBelow(rs, p, file.parts, name, e)
  {
    assert file.parts[..|file.parts|] == file.parts;
    var process, thread, spans := ProcessOfSpan(rs, p, file.parts, m.found.spans, name, Some(e));
    assert IsReadyProcess(p, process);
    RecordsComeFromCalls(rs, spans, name, e);
    var t: nat :| RecordedFrom(rs, spans, t, name, e);
    assert IsSpanOf(p, thread.parts, spans, t);
    var current := SpanSeesItsWindow(p, thread.parts, spans, t);
    ScanRecordExplains(rs, p, SpanOfCallsScope, current, spans[t].addr, name, e);
    assert ExplainedBySpan(rs, p, thread.parts, name, e);
  }

  /**
   Every match that a dynamic analysis records explains the rule's body: on the features of the call, thread or process
   where it was found, of the span of the last 20 calls, or of the file.
   */
  lemma DynamicRecordExplains(rs: MatchingRuleSet, p: Program, file: Unit, m: ProcessesFound, name: string,
                              e: (Address, MatchResult))
    requires FoundFor(rs, p, file, m) && e in Recorded(Capabilities(rs, p, file, m), name)
    ensures || ExplainedBelow(rs, p, file.parts, name, e)
            || (e.0 == NoAddress && ExplainsNamed(rs, name, FileScan(rs, p, file, m).features, e.1))
  {
    AllAreFound(m, FileScan(rs, p, file, m).results, name, e);
    if e in Recorded(m.found.calls, name) {
      UnitRecordExplains(rs, p, file, m, CallScope, name, e);
    } else if e in Recorded(m.found.spans, name) {
      SpanRecordExplains(rs, p, file, m, name, e);
    } else if e in Recorded(m.found.threads, name) {
      UnitRecordExplains(rs, p, file, m, ThreadScope, name, e);
    } else if e in Recorded(m.processes, name) {
      UnitRecordExplains(rs, p, file, m, ProcessScope, name, e);
    } else {
      ScanRecordExplains(rs, p, FileScope, FileFeatures(p, file, LowerOf(rs, m)), NoAddress, name, e);
    }
  }

  // ---- the document tells what was recorded ----

  /** The entry gives the address of the recorded match, and its document tree. */
  ghost predicate EntryTells(rs: MatchingRuleSet, capabilities: MatchResults, e: (Address, MatchResult),
                             entry: (Wire.RawAddress, Match))
  {
    entry.0 == Wire.FromAddress(e.0) && Tells(rs, capabilities, e.1, entry.1)
  }

  /** Each shown rule has one entry for each of its recorded matches, in the order in which they were recorded. */
  ghost predicate DocumentTells(rs: MatchingRuleSet, capabilities: MatchResults, document: Document) {
    forall name | name in document ::
      && |document[name]| == |Recorded(capabilities, name)|
      && forall i | 0 <= i < |document[name]| ::
           EntryTells(rs, capabilities, Recorded(capabilities, name)[i], document[name][i])
  }

  lemma ListedTells(rs: MatchingRuleSet, ranks: map<string, nat>, capabilities: MatchResults, name: string,
                    entries: seq<(Wire.RawAddress, Match)>)
    requires Ranked(rs, ranks, capabilities) && ListsAll(rs, ranks, capabilities, name, entries)
    ensures |entries| == |Recorded(capabilities, name)|
    ensures forall i | 0 <= i < |entries| :: EntryTells(rs, capabilities, Recorded(capabilities, name)[i], entries[i])
  {
    var found := Recorded(capabilities, name);
    forall i | 0 <= i < |entries| ensures EntryTells(rs, capabilities, found[i], entries[i]) {
      assert found[i] in found;
      assert Evidence.Shows(rs, ranks, capabilities, name, found[i], entries[i]);
      BuildTells(rs, ranks, capabilities, found[i].1, ranks[name]);
    }
  }

  lemma BuiltDocumentTells(rs: MatchingRuleSet, ranks: map<string, nat>, capabilities: MatchResults, document: Document)
    requires Ranked(rs, ranks, capabilities)
    requires forall name | name in document :: ListsAll(rs, ranks, capabilities, name, document[name])
    ensures DocumentTells(rs, capabilities, document)
  {
    forall name | name in document
      ensures |document[name]| == |Recorded(capabilities, name)|
      ensures forall i | 0 <= i < |document[name]| ::
                EntryTells(rs, capabilities, Recorded(capabilities, name)[i], document[name][i])
    {
      ListedTells(rs, ranks, capabilities, name, document[name]);
    }
  }
}
