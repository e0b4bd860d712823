/** The whole static pipeline: from parsed rules and extracted features to the result document. */
module StaticReport {
  import opened Base
  import opened Features
  import opened Rules
  import opened Engine
  import opened RuleGraph
  import opened StaticScopes
  import opened UnitContents
  import opened ScopeSemantics
  import opened Extraction
  import opened ExtractionSemantics
  import opened ExtractedBodies
  import opened MatchingRules
  import opened MatchingRuleSets
  import opened RuleMeaning
  import opened SyntheticNames
  import opened ParallelMap
  import opened StaticDriver
  import opened Evidence
  import opened StaticEvidence
  import opened ReportedEvidence

  /** The document shows the rule at exactly the addresses of `units`, and not at all if there are none. */
  ghost predicate Reports(document: Document, rule: string, units: set<Unit>) {
    && (rule in document <==> units != {})
    && (rule in document ==>
          (set entry | entry in document[rule] :: entry.0) == set u | u in units :: Wire.FromAddress(u.addr))
  }

  /**
   What the parsed rules must be like: accepted, with names that extraction could not have made up, no name that is a
   namespace, and bodies as the grammar yields them.
   */
  ghost predicate WellFormedRules(rules: seq<Rule>) {
    && Acceptable(rules) && NamesAreOriginal(rules) && NoNameIsANamespace(rules)
    && forall rule | rule in rules :: ReadyBody(rule.body) && AllNodes(rule.body, NodeRenders)
  }

  lemma ListedAddresses(rs: MatchingRuleSet, ranks: map<string, nat>, capabilities: MatchResults, rule: string,
                        entries: seq<(Wire.RawAddress, Match)>)
    requires Ranked(rs, ranks, capabilities) && ListsAll(rs, ranks, capabilities, rule, entries)
    ensures (set entry | entry in entries :: entry.0)
            == set a | a in RecordedAt(capabilities, rule) :: Wire.FromAddress(a)
  {
    var found := Recorded(capabilities, rule);
    forall i | 0 <= i < |found|
      ensures entries[i].0 == Wire.FromAddress(found[i].0) && entries[i] in entries && found[i] in found
    {
      assert Evidence.Shows(rs, ranks, capabilities, rule, found[i], entries[i]);
    }
  }

  lemma ReportedIsRecorded(rs: MatchingRuleSet, ranks: map<string, nat>, capabilities: MatchResults,
                           document: Document, rule: string, units: set<Unit>)
    requires Ranked(rs, ranks, capabilities) && RecordsAt(capabilities, rule, units) && IsShown(rs, rule)
    requires rule in document <==> rule in capabilities && IsShown(rs, rule)
    requires rule in document ==> ListsAll(rs, ranks, capabilities, rule, document[rule])
    ensures Reports(document, rule, units)
  {
    if rule in document {
      ListedAddresses(rs, ranks, capabilities, rule, document[rule]);
      assert (set a | a in Addresses(units) :: Wire.FromAddress(a)) == set u | u in units :: Wire.FromAddress(u.addr);
    }
  }

  /** An original rule is found under its name in the built set, and is shown. */
  lemma OriginalIsShown(rs: MatchingRuleSet, rules: seq<Rule>, rule: Rule)
    requires FreshNames(rules) && rs.BuiltFor(Expand(rules)) && rule in rules && !rule.IsSubscopeRule()
    ensures IsShown(rs, rule.name)
  {
    ExpandCovers(rules, rule);
    assert Finished(rule) in rs.rules;
    assert Named(rs.rules, rule.name).Some?;
    assert Named(rs.rules, rule.name).value == Finished(rule);
  }

  lemma NoFailure(rs: MatchingRuleSet, ranks: map<string, nat>, capabilities: MatchResults, error: FromCapaError)
    requires Ranked(rs, ranks, capabilities) && EveryRecordIsBuilt(rs, ranks, capabilities)
    ensures !SomeBuildFails(rs, ranks, capabilities, error)
  {
    forall rule, e | e in Recorded(capabilities, rule) && RecordIsRanked(rs, ranks, rule, e)
      ensures Build(rs, ranks, capabilities, e.1, ranks[rule]) != Err(error)
    {
      assert RecordIsBuilt(rs, ranks, capabilities, rule, e);
    }
  }

  /** The document has exactly the shown rules that matched, with a tree for each of their matches. */
  ghost predicate Documents(rs: MatchingRuleSet, ranks: map<string, nat>, capabilities: MatchResults,
                            document: Document)
    requires Ranked(rs, ranks, capabilities)
  {
    && (forall rule :: rule in document <==> rule in capabilities && IsShown(rs, rule))
    && forall rule | rule in document :: ListsAll(rs, ranks, capabilities, rule, document[rule])
  }

  /** The document shows only rules that were written, no synthetic ones. */
  ghost predicate ShowsWritten(document: Document, rules: seq<Rule>) {
    forall name | name in document :: exists rule | rule in rules :: rule.name == name
  }

  lemma DocumentsWritten(rs: MatchingRuleSet, ranks: map<string, nat>, capabilities: MatchResults, document: Document,
                         rules: seq<Rule>)
    requires Ranked(rs, ranks, capabilities) && Documents(rs, ranks, capabilities, document)
    requires rs.rules == Expand(rules)
    ensures ShowsWritten(document, rules)
  {
    forall name | name in document ensures exists rule | rule in rules :: rule.name == name {
      assert IsShown(rs, name);
      ExpandedRules(rules, Named(rs.rules, name).value);
    }
  }

  /** On evidence of which every record can be built, the document is built. */
  method BuildDocument(rs: MatchingRuleSet, capabilities: MatchResults, ghost ranks: map<string, nat>)
    returns (document: Document)
    requires Ranked(rs, ranks, capabilities) && EveryRecordIsBuilt(rs, ranks, capabilities)
    ensures Documents(rs, ranks, capabilities, document)
  {
    var built := BuildResultDocument(rs, capabilities, ranks);
    if built.Err? {
      NoFailure(rs, ranks, capabilities, built.error);
    }
    document := built.value;
  }

  /** What both analyses rely on follows for a rule set that was built, and its rules have an order. */
  lemma RulesArePrepared(rs: MatchingRuleSet, rules: seq<Rule>, globals: seq<Feature>) returns (order: seq<string>)
    requires WellFormedRules(rules) && rs.BuiltFor(Expand(rules))
    ensures FreshNames(rules) && Usable(rs) && RulesAreReady(rs, Program(rs.byScope, globals))
    ensures ListsInOrder(GraphOf(rs.rules, rs.namespaces), order)
  {
    OriginalNamesGiveFreshOnes(rules);
    BuiltIsUsable(rs, Expand(rules));
    BuiltRulesAreReady(rs, rules, globals);
    order :| ListsInOrder(GraphOf(rs.rules, rs.namespaces), order);
  }

  /** A rule of the original set is shown exactly where it was recorded. */
  lemma OriginalIsReported(rs: MatchingRuleSet, ranks: map<string, nat>, capabilities: MatchResults, document: Document,
                           rules: seq<Rule>, rule: Rule, units: set<Unit>)
    requires Ranked(rs, ranks, capabilities) && Documents(rs, ranks, capabilities, document)
    requires FreshNames(rules) && rs.BuiltFor(Expand(rules)) && rule in rules && !rule.IsSubscopeRule()
    requires RecordsAt(capabilities, rule.name, units)
    ensures Reports(document, rule.name, units)
  {
    OriginalIsShown(rs, rules, rule);
    ReportedIsRecorded(rs, ranks, capabilities, document, rule.name, units);
  }

  /** The document shows each rule at exactly the addresses of the units where it holds under the verdicts `m`. */
  ghost predicate ReportsMeaning(document: Document, p: Program, rules: seq<Rule>, m: Verdicts, file: Unit) {
    forall rule | rule in rules :: Reports(document, rule.name, MeantUnits(p, rules, m, rule, file))
  }

  lemma StaticIsMeant(rs: MatchingRuleSet, rules: seq<Rule>, globals: seq<Feature>, m: Verdicts, file: Unit,
                        order: seq<string>, document: Document)
    requires WellFormedRules(rules) && FreshNames(rules) && rs.BuiltFor(Expand(rules))
    requires WellNested(file) && file.scope.FileScope? && NoMatchFeatures(Program(rs.byScope, globals), file)
    requires Program(rs.byScope, globals).Valid() && Solves(Program(rs.byScope, globals), rules, m, file)
    requires Ranked(rs, RanksOf(order), StaticMatches(Program(rs.byScope, globals), file))
    requires Documents(rs, RanksOf(order), StaticMatches(Program(rs.byScope, globals), file), document)
    ensures ReportsMeaning(document, Program(rs.byScope, globals), rules, m, file)
  {
    var p := Program(rs.byScope, globals);
    forall rule | rule in rules ensures Reports(document, rule.name, MeantUnits(p, rules, m, rule, file)) {
      CapabilitiesAreMeant(rs, rules, globals, m, rule, file);
      OriginalIsReported(rs, RanksOf(order), StaticMatches(p, file), document, rules, rule,
                         MeantUnits(p, rules, m, rule, file));
    }
  }

  /** The entries are the document trees of the recorded matches, and each match explains its rule's body at a unit. */
  ghost predicate ShowsEvidence(rs: MatchingRuleSet, p: Program, file: Unit, document: Document) {
    && p.Valid() && DocumentTells(rs, StaticMatches(p, file), document)
    && forall name, e | e in Recorded(StaticMatches(p, file), name) :: ExplainedByUnit(rs, p, Units(file), name, e)
  }

  lemma DocumentIsExplained(rs: MatchingRuleSet, rules: seq<Rule>, p: Program, file: Unit, order: seq<string>,
                            document: Document)
    requires Ready(rs, p, file) && rs.rules == Expand(rules)
    requires Ranked(rs, RanksOf(order), StaticMatches(p, file))
    requires Documents(rs, RanksOf(order), StaticMatches(p, file), document)
    ensures ShowsWritten(document, rules) && ShowsEvidence(rs, p, file, document)
  {
    DocumentsWritten(rs, RanksOf(order), StaticMatches(p, file), document, rules);
    BuiltDocumentTells(rs, RanksOf(order), StaticMatches(p, file), document);
    forall name, e | e in Recorded(StaticMatches(p, file), name) ensures ExplainedByUnit(rs, p, Units(file), name, e) {
      StaticRecordExplains(rs, p, file, name, e);
    }
  }

  /**
   Analysis of a file with a rule set built from `rules`: it never fails. The rules have a meaning, verdicts that give
   each rule the verdict of its body as it was written; and for whatever verdicts do so, the document shows each rule at
   exactly the addresses of the units that have one of its scopes and satisfy its body. It shows no other rules. Its
   entries are the document trees of the recorded matches, each of which explains the rule's body at its unit.
   */
  method Analyze(jobs: Jobs, rs: MatchingRuleSet, ghost rules: seq<Rule>, file: Unit, globals: seq<Feature>)
    returns (document: Document)
    requires WellFormedRules(rules) && rs.BuiltFor(Expand(rules))
    requires WellNested(file) && file.scope.FileScope? && NoMatchFeatures(Program(rs.byScope, globals), file)
    ensures var p := Program(rs.byScope, globals);
            && (exists m :: Solves(p, rules, m, file))
            && forall m | Solves(p, rules, m, file) :: ReportsMeaning(document, p, rules, m, file)
    ensures ShowsWritten(document, rules) && ShowsEvidence(rs, Program(rs.byScope, globals), file, document)
  {
    ghost var p := Program(rs.byScope, globals);
    NestedIsFile(file);
    ghost var order := RulesArePrepared(rs, rules, globals);
    DriversSolve(rs, rules, globals, file);
    StaticDocumentIsBuilt(rs, p, file, order);
    var found := FindStaticCapabilities(jobs, rs, file, globals);
    document := BuildDocument(rs, found.value.matches, RanksOf(order));
    DocumentIsExplained(rs, rules, p, file, order, document);
    forall m | Solves(p, rules, m, file) ensures ReportsMeaning(document, p, rules, m, file) {
      StaticIsMeant(rs, rules, globals, m, file, order, document);
    }
  }
}
