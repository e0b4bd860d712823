/**
 capa-x/src/capabilities/static_analysis.rs: the bottom-up drivers, and the proof that they compute what `StaticScopes`
 says, whatever order their hash maps are iterated in.
 */
module StaticDriver {
  import opened Base
  import opened Features
  import opened FeatureSets
  import opened Rules
  import opened Engine
  import opened RuleIndex
  import opened RuleGraph
  import opened StaticScopes
  import opened UnitContents
  import opened ScopeSemantics
  import opened Extraction
  import opened ExtractionSemantics
  import opened ExtractedBodies
  import opened MatchingRules
  import opened MatchingRuleSets
  import opened RuleMeaning
  import opened ParallelMap
  import opened Promotion

  datatype CapabilityError = InFunction(address: Address, source: EngineError) | InFile(source: EngineError)

  /** The rule set as the drivers use it: indexed, its scopes drawn from its rules, and those uniquely named. */
  ghost predicate Usable(rs: MatchingRuleSet) {
    rs.Indexed() && DrawnFrom(Program(rs.byScope, []), rs.rules)
  }

  lemma BuiltIsUsable(rs: MatchingRuleSet, all: seq<Rule>)
    requires rs.BuiltFor(all) && UniqueNames(all)
    ensures Usable(rs)
  {
    var p := Program(rs.byScope, []);
    forall scope, rule | rule in p.RulesAt(scope) ensures rule in rs.rules {
      assert ScopeRules(all, scope, rs.byScope[scope]);
    }
  }

  /** Whatever is said of the outcome holds when every rule can be evaluated; then no error is possible. */
  method MatchScopeResults(rs: MatchingRuleSet, ghost p: Program, scope: Scope, fs: FeatureSet, addr: Address)
    returns (r: Outcome<MatchResults, EngineError>)
    requires rs.Indexed() && p.rules == rs.byScope
    ensures p.Valid() ==> r == Ok(ScanAt(p, scope, fs, addr).results)
  {
    if scope !in rs.indexes { return Ok(map[]); }
    var scan := MatchScope(rs.indexes[scope], rs.byScope[scope], fs, addr);
    if p.Valid() {
      EvaluableScanSucceeds(p.RulesAt(scope), |p.RulesAt(scope)|, fs, addr);
    }
    r := if scan.Ok? then Ok(scan.value.results) else Err(scan.error);
  }

  /** `seed`: the unit's features in order, then the globals without an address. */
  method Seed(fs: FeatureMap, features: seq<(Address, Feature)>, globals: seq<Feature>)
    requires fs.Valid()
    modifies fs
    ensures fs.Valid() && fs.View() == InsertAll(old(fs.View()), features + AtNoAddress(globals))
  {
    fs.InsertPairs(features + AtNoAddress(globals));
  }

  lemma RulesAreDrawn(rs: MatchingRuleSet, p: Program, scope: Scope)
    requires Usable(rs) && p.rules == rs.byScope
    ensures forall rule | rule in p.RulesAt(scope) :: rule in rs.rules
  {
    assert p.RulesAt(scope) == Program(rs.byScope, []).RulesAt(scope);
  }

  /** What was matched on equivalent features and then promoted is what the specification's scan leaves. */
  lemma PromotedIsScanned(rs: MatchingRuleSet, p: Program, u: Unit, before: FeatureSet, found: MatchResults,
                          after: FeatureSet)
    requires Usable(rs) && p.rules == rs.byScope && p.Valid() && Equivalent(before, Before(p, u))
    requires found == ScanAt(p, u.scope, before, u.addr).results
    requires Published(before, rs.rules, PromotedAddresses(found), after)
    ensures found == Scan(p, u).results && Equivalent(after, Scan(p, u).features)
  {
    ScanAtIsOrderIndependent(p, u.scope, before, Before(p, u), u.addr);
    ScanPublishes(p, u.scope, before, u.addr);
    assert PromotedAddresses(found) == MatchAddresses(found);
    RulesAreDrawn(rs, p, u.scope);
    PublishedByFewer(before, rs.rules, p.RulesAt(u.scope), MatchAddresses(found), after);
    PublicationIsDetermined(before, p.RulesAt(u.scope), MatchAddresses(found), after,
                            ScanAt(p, u.scope, before, u.addr).features);
  }

  /** Match a unit's own scope on features equivalent to those of the specification, then promote what matched. */
  method MatchAndPromote(rs: MatchingRuleSet, ghost p: Program, ghost u: Unit, scope: Scope, addr: Address,
                         features: FeatureMap)
    returns (r: Outcome<MatchResults, EngineError>)
    requires Usable(rs) && p.rules == rs.byScope && u.scope == scope && u.addr == addr && features.Valid()
    requires p.Valid() ==> Equivalent(features.View(), Before(p, u))
    modifies features
    ensures features.Valid()
    ensures p.Valid() ==> r == Ok(Scan(p, u).results) && Equivalent(features.View(), Scan(p, u).features)
  {
    var before := features.View();
    r := MatchScopeResults(rs, p, scope, before, addr);
    if r.Err? { return; }
    PromoteMatches(rs.rules, features, r.value);
    if p.Valid() {
      PromotedIsScanned(rs, p, u, before, r.value, features.View());
    }
  }

  // ---- what the loops over a unit's parts keep ----

  /** `features` is the union of what the parts leave, unless some rule cannot be evaluated. */
  ghost predicate MergesParts(p: Program, parts: seq<Unit>, features: FeatureSet) {
    p.Valid() ==> Equivalent(features, MergeParts(p, parts))
  }

  /** `matches` are those of one scope in the parts, in address order. */
  ghost predicate CollectsParts(p: Program, parts: seq<Unit>, scope: Scope, matches: MatchResults) {
    p.Valid() ==> matches == MatchesOfParts(p, parts, scope)
  }

  lemma NoPartsYet(p: Program, parts: seq<Unit>)
    ensures MergesParts(p, parts[..0], EMPTY)
    ensures forall scope :: CollectsParts(p, parts[..0], scope, map[])
  {
  }

  lemma MergesNextPart(p: Program, parts: seq<Unit>, i: nat, features: FeatureSet, part: FeatureSet)
    requires i < |parts| && MergesParts(p, parts[..i], features)
    requires p.Valid() ==> Equivalent(part, Scan(p, parts[i]).features)
    ensures MergesParts(p, parts[..i + 1], Merge(features, part))
  {
    if p.Valid() {
      assert parts[..i + 1][..i] == parts[..i];
      MergeEquivalent(features, MergeParts(p, parts[..i]), part, Scan(p, parts[i]).features);
    }
  }

  lemma CollectsNextPart(p: Program, parts: seq<Unit>, i: nat, scope: Scope, matches: MatchResults, more: MatchResults)
    requires i < |parts| && CollectsParts(p, parts[..i], scope, matches)
    requires p.Valid() ==> more == MatchesOf(p, parts[i], scope)
    ensures CollectsParts(p, parts[..i + 1], scope, ExtendMatches(matches, more))
  {
    assert parts[..i + 1][..i] == parts[..i];
  }

  /** Seeding the union of the parts gives the features that the unit is matched against. */
  lemma SeededIsBefore(p: Program, u: Unit, features: FeatureSet)
    requires !u.scope.FileScope? && MergesParts(p, u.parts, features)
    ensures p.Valid() ==> Equivalent(InsertAll(features, Entries(p, u)), Before(p, u))
  {
    if p.Valid() {
      InsertAllEquivalent(features, MergeParts(p, u.parts), Entries(p, u));
    }
  }

  /** A unit with nothing below it starts from its own features. */
  lemma LeafIsBefore(p: Program, u: Unit)
    requires !u.scope.FileScope? && u.parts == []
    ensures p.Valid() ==> Equivalent(InsertAll(EMPTY, Entries(p, u)), Before(p, u))
  {
  }

  // ---- instructions, basic blocks, functions ----

  type UnitOutcome = Outcome<(FeatureSet, MatchResults), EngineError>

  /** An instruction of a block, with nothing below it. */
  predicate IsInstruction(u: Unit) {
    u.scope.InstructionScope? && u.parts == []
  }

  method FindInstructionCapabilities(rs: MatchingRuleSet, insn: Unit, globals: seq<Feature>) returns (r: UnitOutcome)
    requires Usable(rs) && IsInstruction(insn)
    ensures var p := Program(rs.byScope, globals);
            p.Valid() ==>
              r.Ok? && Equivalent(r.value.0, Scan(p, insn).features)
              && r.value.1 == MatchesOf(p, insn, InstructionScope)
  {
    ghost var p := Program(rs.byScope, globals);
    var features := new FeatureMap();
    Seed(features, insn.features, globals);
    LeafIsBefore(p, insn);
    var matches := MatchAndPromote(rs, p, insn, InstructionScope, insn.addr, features);
    if matches.Err? { return Err(matches.error); }
    r := Ok((features.View(), matches.value));
  }

  /** What the block-scope driver reports of `bb`: its features with its matches promoted, and the matches in it. */
  ghost predicate ReportsBlock(p: Program, bb: Unit, features: FeatureSet, blocks: MatchResults,
                               instructions: MatchResults)
    requires p.Valid()
  {
    && Equivalent(features, Scan(p, bb).features)
    && blocks == MatchesOf(p, bb, BasicBlockScope)
    && instructions == MatchesOf(p, bb, InstructionScope)
  }

  method FindBasicBlockCapabilities(rs: MatchingRuleSet, bb: Unit, globals: seq<Feature>)
    returns (r: Outcome<(FeatureSet, MatchResults, MatchResults), EngineError>)
    requires Usable(rs) && IsBlock(bb)
    ensures var p := Program(rs.byScope, globals);
            p.Valid() ==> r.Ok? && ReportsBlock(p, bb, r.value.0, r.value.1, r.value.2)
  {
    var features := new FeatureMap();
    var insnMatches := WalkInstructions(rs, bb.parts, globals, features);
    if insnMatches.Err? { return Err(insnMatches.error); }
    r := FinishBasicBlock(rs, bb, globals, features, insnMatches.value);
  }

  /** The loop over the instructions of a block; `features` gathers what they leave. */
  method WalkInstructions(rs: MatchingRuleSet, parts: seq<Unit>, globals: seq<Feature>, features: FeatureMap)
    returns (r: Outcome<MatchResults, EngineError>)
    requires Usable(rs) && forall insn | insn in parts :: IsInstruction(insn)
    requires features.Valid() && features.View() == EMPTY
    modifies features
    ensures features.Valid() && (Program(rs.byScope, globals).Valid() ==> r.Ok?)
    ensures r.Ok? ==>
              && MergesParts(Program(rs.byScope, globals), parts, features.View())
              && CollectsParts(Program(rs.byScope, globals), parts, InstructionScope, r.value)
  {
    ghost var p := Program(rs.byScope, globals);
    var matches: MatchResults := map[];
    NoPartsYet(p, parts);
    for i := 0 to |parts|
      invariant features.Valid() && MergesParts(p, parts[..i], features.View())
      invariant CollectsParts(p, parts[..i], InstructionScope, matches)
    {
      var next := NextInstruction(rs, p, parts, i, globals, features, matches);
      if next.Err? { return next; }
      matches := next.value;
    }
    assert parts[..|parts|] == parts;
    r := Ok(matches);
  }

  method NextInstruction(rs: MatchingRuleSet, ghost p: Program, parts: seq<Unit>, i: nat, globals: seq<Feature>,
                         features: FeatureMap, matches: MatchResults)
    returns (r: Outcome<MatchResults, EngineError>)
    requires Usable(rs) && p == Program(rs.byScope, globals) && i < |parts| && IsInstruction(parts[i])
    requires features.Valid()
    requires MergesParts(p, parts[..i], features.View())
    requires CollectsParts(p, parts[..i], InstructionScope, matches)
    modifies features
    ensures features.Valid() && (p.Valid() ==> r.Ok?)
    ensures r.Ok? ==>
              && MergesParts(p, parts[..i + 1], features.View())
              && CollectsParts(p, parts[..i + 1], InstructionScope, r.value)
  {
    var found := FindInstructionCapabilities(rs, parts[i], globals);
    if found.Err? { return Err(found.error); }
    MergesNextPart(p, parts, i, features.View(), found.value.0);
    CollectsNextPart(p, parts, i, InstructionScope, matches, found.value.1);
    features.Absorb(found.value.0);
    var all := ExtendWith(matches, found.value.1);
    r := Ok(all);
  }

  /** The block's own features and matches, once those of its instructions are in. */
  method FinishBasicBlock(rs: MatchingRuleSet, bb: Unit, globals: seq<Feature>, features: FeatureMap,
                          insnMatches: MatchResults)
    returns (r: Outcome<(FeatureSet, MatchResults, MatchResults), EngineError>)
    requires Usable(rs) && bb.scope.BasicBlockScope? && features.Valid()
    requires MergesParts(Program(rs.byScope, globals), bb.parts, features.View())
    requires CollectsParts(Program(rs.byScope, globals), bb.parts, InstructionScope, insnMatches)
    modifies features
    ensures var p := Program(rs.byScope, globals);
            p.Valid() ==> r.Ok? && ReportsBlock(p, bb, r.value.0, r.value.1, r.value.2)
  {
    ghost var p := Program(rs.byScope, globals);
    SeededIsBefore(p, bb, features.View());
    Seed(features, bb.features, globals);
    var matches := MatchAndPromote(rs, p, bb, BasicBlockScope, bb.addr, features);
    if matches.Err? { return Err(matches.error); }
    BlockIsReported(p, bb, features.View(), matches.value, insnMatches);
    r := Ok((features.View(), matches.value, insnMatches));
  }

  lemma BlockIsReported(p: Program, bb: Unit, features: FeatureSet, blocks: MatchResults, instructions: MatchResults)
    requires bb.scope.BasicBlockScope? && CollectsParts(p, bb.parts, InstructionScope, instructions)
    requires p.Valid() ==> Equivalent(features, Scan(p, bb).features) && blocks == Scan(p, bb).results
    ensures p.Valid() ==> ReportsBlock(p, bb, features, blocks, instructions)
  {
  }

  datatype CodeCapabilities = CodeCapabilities(functions: MatchResults, blocks: MatchResults,
                                               instructions: MatchResults, featureCount: nat)

  /** What the function-scope driver reports of `fn`; the count is taken before function matches are published. */
  ghost predicate ReportsCode(p: Program, fn: Unit, r: CodeCapabilities)
    requires p.Valid()
  {
    && r.functions == MatchesOf(p, fn, FunctionScope)
    && r.blocks == MatchesOf(p, fn, BasicBlockScope)
    && r.instructions == MatchesOf(p, fn, InstructionScope)
    && r.featureCount == |Before(p, fn).locs|
  }

  predicate IsFunction(u: Unit) {
    u.scope.FunctionScope? && forall bb | bb in u.parts :: IsBlock(bb)
  }

  method FindCodeCapabilities(rs: MatchingRuleSet, fn: Unit, globals: seq<Feature>)
    returns (r: Outcome<CodeCapabilities, EngineError>)
    requires Usable(rs) && IsFunction(fn)
    ensures var p := Program(rs.byScope, globals); p.Valid() ==> r.Ok? && ReportsCode(p, fn, r.value)
  {
    var features := new FeatureMap();
    var walked := WalkBlocks(rs, fn.parts, globals, features);
    if walked.Err? { return Err(walked.error); }
    r := FinishCode(rs, fn, globals, features, walked.value.0, walked.value.1);
  }

  predicate IsBlock(u: Unit) {
    u.scope.BasicBlockScope? && forall insn | insn in u.parts :: IsInstruction(insn)
  }

  /** The loop over the blocks of a function; `features` gathers what they leave. */
  method WalkBlocks(rs: MatchingRuleSet, parts: seq<Unit>, globals: seq<Feature>, features: FeatureMap)
    returns (r: Outcome<(MatchResults, MatchResults), EngineError>)
    requires Usable(rs) && forall bb | bb in parts :: IsBlock(bb)
    requires features.Valid() && features.View() == EMPTY
    modifies features
    ensures features.Valid() && (Program(rs.byScope, globals).Valid() ==> r.Ok?)
    ensures r.Ok? ==>
              && MergesParts(Program(rs.byScope, globals), parts, features.View())
              && CollectsParts(Program(rs.byScope, globals), parts, BasicBlockScope, r.value.0)
              && CollectsParts(Program(rs.byScope, globals), parts, InstructionScope, r.value.1)
  {
    ghost var p := Program(rs.byScope, globals);
    var blocks: MatchResults := map[];
    var instructions: MatchResults := map[];
    NoPartsYet(p, parts);
    for i := 0 to |parts|
      invariant features.Valid() && BlocksSoFar(p, parts, i, features.View(), blocks, instructions)
    {
      var next := NextBlock(rs, p, parts, i, globals, features, blocks, instructions);
      if next.Err? { return next; }
      blocks, instructions := next.value.0, next.value.1;
    }
    assert parts[..|parts|] == parts;
    r := Ok((blocks, instructions));
  }

  /** Where the loop over the blocks stands after the first `n`. */
  ghost predicate BlocksSoFar(p: Program, parts: seq<Unit>, n: nat, features: FeatureSet, blocks: MatchResults,
                              instructions: MatchResults)
    requires n <= |parts|
  {
    && MergesParts(p, parts[..n], features)
    && CollectsParts(p, parts[..n], BasicBlockScope, blocks)
    && CollectsParts(p, parts[..n], InstructionScope, instructions)
  }

  method NextBlock(rs: MatchingRuleSet, ghost p: Program, parts: seq<Unit>, i: nat, globals: seq<Feature>,
                   features: FeatureMap, blocks: MatchResults, instructions: MatchResults)
    returns (r: Outcome<(MatchResults, MatchResults), EngineError>)
    requires Usable(rs) && p == Program(rs.byScope, globals) && i < |parts| && IsBlock(parts[i]) && features.Valid()
    requires BlocksSoFar(p, parts, i, features.View(), blocks, instructions)
    modifies features
    ensures features.Valid() && (p.Valid() ==> r.Ok?)
    ensures r.Ok? ==> BlocksSoFar(p, parts, i + 1, features.View(), r.value.0, r.value.1)
  {
    var found := FindBasicBlockCapabilities(rs, parts[i], globals);
    if found.Err? { return Err(found.error); }
    MergesNextPart(p, parts, i, features.View(), found.value.0);
    CollectsNextPart(p, parts, i, BasicBlockScope, blocks, found.value.1);
    CollectsNextPart(p, parts, i, InstructionScope, instructions, found.value.2);
    features.Absorb(found.value.0);
    var allBlocks := ExtendWith(blocks, found.value.1);
    var allInstructions := ExtendWith(instructions, found.value.2);
    r := Ok((allBlocks, allInstructions));
  }

  /** The function's own features and matches, once those of its blocks are in. */
  method FinishCode(rs: MatchingRuleSet, fn: Unit, globals: seq<Feature>, features: FeatureMap, bbMatches: MatchResults,
                    insnMatches: MatchResults)
    returns (r: Outcome<CodeCapabilities, EngineError>)
    requires Usable(rs) && fn.scope.FunctionScope? && features.Valid()
    requires MergesParts(Program(rs.byScope, globals), fn.parts, features.View())
    requires CollectsParts(Program(rs.byScope, globals), fn.parts, BasicBlockScope, bbMatches)
    requires CollectsParts(Program(rs.byScope, globals), fn.parts, InstructionScope, insnMatches)
    modifies features
    ensures var p := Program(rs.byScope, globals); p.Valid() ==> r.Ok? && ReportsCode(p, fn, r.value)
  {
    ghost var p := Program(rs.byScope, globals);
    SeededIsBefore(p, fn, features.View());
    Seed(features, fn.features, globals);
    var seeded := features.View();
    var matches := MatchScopeResults(rs, p, FunctionScope, seeded, fn.addr);
    if matches.Err? { return Err(matches.error); }
    if p.Valid() {
      FunctionIsScanned(p, fn, seeded);
    }
    r := Ok(CodeCapabilities(matches.value, bbMatches, insnMatches, |seeded.locs|));
  }

  lemma FunctionIsScanned(p: Program, fn: Unit, seeded: FeatureSet)
    requires p.Valid() && fn.scope.FunctionScope? && Equivalent(seeded, Before(p, fn))
    ensures ScanAt(p, FunctionScope, seeded, fn.addr).results == MatchesOf(p, fn, FunctionScope)
    ensures MatchesOf(p, fn, BasicBlockScope) == MatchesOfParts(p, fn.parts, BasicBlockScope)
    ensures MatchesOf(p, fn, InstructionScope) == MatchesOfParts(p, fn.parts, InstructionScope)
  {
    ScanAtIsOrderIndependent(p, FunctionScope, seeded, Before(p, fn), fn.addr);
  }

  // ---- the file ----

  /** A feature without an address gets an entry but no location; address zero is an address. */
  method InsertAllGuarded(fs: FeatureMap, entries: seq<(Address, Feature)>)
    requires fs.Valid()
    modifies fs
    ensures fs.Valid() && fs.View() == InsertGuarded(old(fs.View()), entries)
  {
    ghost var before := fs.View();
    for i := 0 to |entries|
      invariant fs.Valid() && fs.View() == InsertGuarded(before, entries[..i])
    {
      assert entries[..i + 1][..i] == entries[..i];
      if entries[i].0 != NoAddress {
        fs.Insert(entries[i].1, entries[i].0);
      } else {
        fs.Extend(entries[i].1, {});
      }
    }
    assert entries[..|entries|] == entries;
  }

  /** A file of functions, of blocks, of instructions. */
  predicate IsFile(u: Unit) {
    u.scope.FileScope? && u.addr == NoAddress && forall fn | fn in u.parts :: IsFunction(fn)
  }

  lemma NestedIsFile(file: Unit)
    requires WellNested(file) && file.scope.FileScope?
    ensures IsFile(file)
  {
    forall fn | fn in file.parts ensures IsFunction(fn) {
      NestedIsFunction(fn);
    }
  }

  lemma NestedIsFunction(fn: Unit)
    requires WellNested(fn) && fn.scope.FunctionScope?
    ensures IsFunction(fn)
  {
    forall bb | bb in fn.parts ensures IsBlock(bb) {
      forall insn | insn in bb.parts ensures IsInstruction(insn) {
        assert WellNested(insn);
      }
    }
  }

  /** What file scope is matched against: the file's own features, guarded, and what the scopes below published. */
  function FileFeatures(p: Program, file: Unit, lower: FeatureSet): FeatureSet {
    Merge(InsertGuarded(EMPTY, Entries(p, file)), lower)
  }

  /** Whatever set equivalent to `spec` either driver hands up, the file's matches are those on `spec`. */
  method FindFileCapabilities(rs: MatchingRuleSet, file: Unit, globals: seq<Feature>, lower: FeatureSet,
                              ghost spec: FeatureSet)
    returns (r: Outcome<(MatchResults, nat), EngineError>)
    requires Usable(rs)
    ensures var p := Program(rs.byScope, globals);
            p.Valid() && Equivalent(lower, spec) ==>
              && r.Ok? && r.value.0 == ScanAt(p, FileScope, FileFeatures(p, file, spec), NoAddress).results
              && r.value.1 == |FileFeatures(p, file, spec).locs|
  {
    ghost var p := Program(rs.byScope, globals);
    var features := new FeatureMap();
    InsertAllGuarded(features, file.features + AtNoAddress(globals));
    if p.Valid() && Equivalent(lower, spec) {
      MergeEquivalent(features.View(), features.View(), lower, spec);
    }
    features.Absorb(lower);
    var seen := features.View();
    var matches := MatchScopeResults(rs, p, FileScope, seen, NoAddress);
    if matches.Err? { return Err(matches.error); }
    if p.Valid() && Equivalent(seen, FileFeatures(p, file, spec)) {
      ScanAtIsOrderIndependent(p, FileScope, seen, FileFeatures(p, file, spec), NoAddress);
    }
    r := Ok((matches.value, |seen.locs|));
  }

  /** The matches recorded for a scope name only rules of that scope. */
  lemma {:induction false} RecordsAreNamed(p: Program, u: Unit, scope: Scope)
    requires p.Valid()
    ensures NamesAll(p.RulesAt(scope), MatchAddresses(MatchesOf(p, u, scope)))
    decreases u, 1
  {
    if u.scope == scope {
      ScanPublishes(p, scope, Before(p, u), u.addr);
    } else {
      PartsRecordsAreNamed(p, u.parts, scope);
    }
  }

  lemma {:induction false} PartsRecordsAreNamed(p: Program, parts: seq<Unit>, scope: Scope)
    requires p.Valid()
    ensures NamesAll(p.RulesAt(scope), MatchAddresses(MatchesOfParts(p, parts, scope)))
    decreases parts
  {
    if parts != [] {
      var init, last := parts[..|parts| - 1], parts[|parts| - 1];
      PartsRecordsAreNamed(p, init, scope);
      RecordsAreNamed(p, last, scope);
      ExtendedAreNamed(p.RulesAt(scope), MatchesOfParts(p, init, scope), MatchesOf(p, last, scope));
    }
  }

  lemma ExtendedAreNamed(rules: seq<Rule>, a: MatchResults, b: MatchResults)
    requires NamesAll(rules, MatchAddresses(a)) && NamesAll(rules, MatchAddresses(b))
    ensures NamesAll(rules, MatchAddresses(ExtendMatches(a, b)))
  {
    forall name | name in ExtendMatches(a, b) ensures exists rule | rule in rules :: rule.name == name {
      assert name in MatchAddresses(a) || name in MatchAddresses(b);
    }
  }

  /** One scope's share of what file scope sees of the functions below it. */
  method PublishScopeMatches(rs: MatchingRuleSet, ghost p: Program, ghost parts: seq<Unit>, ghost scope: Scope,
                             fs: FeatureMap, matches: MatchResults, ghost spec: FeatureSet)
    requires Usable(rs) && p.rules == rs.byScope && fs.Valid()
    modifies fs
    ensures fs.Valid()
    ensures p.Valid() && Equivalent(old(fs.View()), spec) && matches == MatchesOfParts(p, parts, scope) ==>
              Equivalent(fs.View(), PublishEach(spec, p.RulesAt(scope), MatchAddresses(matches)))
  {
    ghost var before := fs.View();
    PublishMatches(rs.rules, fs, matches);
    if p.Valid() && Equivalent(before, spec) && matches == MatchesOfParts(p, parts, scope) {
      ScopeIsPublished(rs, p, parts, scope, before, matches, fs.View());
      PublishEachEquivalent(before, spec, p.RulesAt(scope), MatchAddresses(matches));
    }
  }

  lemma ScopeIsPublished(rs: MatchingRuleSet, p: Program, parts: seq<Unit>, scope: Scope, before: FeatureSet,
                         matches: MatchResults, after: FeatureSet)
    requires Usable(rs) && p.rules == rs.byScope && p.Valid() && matches == MatchesOfParts(p, parts, scope)
    requires Published(before, rs.rules, MatchAddresses(matches), after)
    ensures Equivalent(after, PublishEach(before, p.RulesAt(scope), MatchAddresses(matches)))
  {
    var at := MatchAddresses(matches);
    PartsRecordsAreNamed(p, parts, scope);
    RulesAreDrawn(rs, p, scope);
    PublishedByFewer(before, rs.rules, p.RulesAt(scope), at, after);
    PublishEachPublishes(before, p.RulesAt(scope), at);
    PublicationIsDetermined(before, p.RulesAt(scope), at, after, PublishEach(before, p.RulesAt(scope), at));
  }

  lemma {:induction false} PublishEachEquivalent(a: FeatureSet, b: FeatureSet, rules: seq<Rule>,
                                                 at: map<string, set<Address>>)
    requires Equivalent(a, b)
    ensures Equivalent(PublishEach(a, rules, at), PublishEach(b, rules, at))
  {
    if rules != [] {
      var init, last := rules[..|rules| - 1], rules[|rules| - 1];
      PublishEachEquivalent(a, b, init, at);
      if last.name in at {
        PublishEquivalent(PublishEach(a, init, at), PublishEach(b, init, at), PublishedNames(last), at[last.name]);
      }
    }
  }

  datatype StaticCapabilities = StaticCapabilities(
    matches: MatchResults,
    fileFeatureCount: nat,
    functionFeatureCounts: seq<(Address, nat)>)

  /** The feature counts of the functions, in address order. */
  ghost function FunctionCounts(p: Program, functions: seq<Unit>): seq<(Address, nat)>
    requires p.Valid()
  {
    if functions == [] then []
    else
      var last := functions[|functions| - 1];
      FunctionCounts(p, functions[..|functions| - 1]) + [(last.addr, |Before(p, last).locs|)]
  }

  /** The per-function results, merged in address order. */
  datatype Merged = Merged(functions: MatchResults, blocks: MatchResults, instructions: MatchResults,
                           counts: seq<(Address, nat)>)

  ghost predicate MergesFunctions(p: Program, functions: seq<Unit>, m: Merged) {
    && CollectsParts(p, functions, FunctionScope, m.functions)
    && CollectsParts(p, functions, BasicBlockScope, m.blocks)
    && CollectsParts(p, functions, InstructionScope, m.instructions)
    && (p.Valid() ==> m.counts == FunctionCounts(p, functions))
  }

  /** The outcome is what the driver of functions specifies. */
  ghost predicate IsCodeOf(p: Program, fn: Unit, outcome: Outcome<CodeCapabilities, CapabilityError>) {
    p.Valid() ==> outcome.Ok? && ReportsCode(p, fn, outcome.value)
  }

  /** What a worker finds in a function, whichever worker it is: `find_code_capabilities`, its error labelled. */
  ghost predicate FindsCode(p: Program, functions: seq<Unit>, find: Unit -> Outcome<CodeCapabilities, CapabilityError>)
  {
    forall fn | fn in functions :: IsCodeOf(p, fn, find(fn))
  }

  method CodeOutcome(rs: MatchingRuleSet, fn: Unit, globals: seq<Feature>)
    returns (r: Outcome<CodeCapabilities, CapabilityError>)
    requires Usable(rs) && IsFunction(fn)
    ensures IsCodeOf(Program(rs.byScope, globals), fn, r)
  {
    var found := FindCodeCapabilities(rs, fn, globals);
    r := if found.Ok? then Ok(found.value) else Err(InFunction(fn.addr, found.error));
  }

  type CodeTable = map<Unit, Outcome<CodeCapabilities, CapabilityError>>

  ghost predicate TableIsRight(p: Program, table: CodeTable) {
    forall fn | fn in table :: IsCodeOf(p, fn, table[fn])
  }

  lemma TableGrows(p: Program, table: CodeTable, fn: Unit, outcome: Outcome<CodeCapabilities, CapabilityError>)
    requires TableIsRight(p, table) && IsCodeOf(p, fn, outcome)
    ensures TableIsRight(p, table[fn := outcome])
  {
  }

  function LookedUp(table: CodeTable, fn: Unit): Outcome<CodeCapabilities, CapabilityError> {
    if fn in table then table[fn] else Ok(CodeCapabilities(map[], map[], map[], 0))
  }

  lemma TableFinds(p: Program, functions: seq<Unit>, table: CodeTable)
    requires TableIsRight(p, table) && forall fn | fn in functions :: fn in table
    ensures FindsCode(p, functions, fn => LookedUp(table, fn))
  {
  }

  method AddOutcome(rs: MatchingRuleSet, fn: Unit, globals: seq<Feature>, table: CodeTable) returns (r: CodeTable)
    requires Usable(rs) && IsFunction(fn)
    requires TableIsRight(Program(rs.byScope, globals), table)
    ensures TableIsRight(Program(rs.byScope, globals), r) && r.Keys == table.Keys + {fn}
  {
    var outcome := CodeOutcome(rs, fn, globals);
    TableGrows(Program(rs.byScope, globals), table, fn, outcome);
    r := table[fn := outcome];
  }

  method CodeOutcomes(rs: MatchingRuleSet, functions: seq<Unit>, globals: seq<Feature>) returns (table: CodeTable)
    requires Usable(rs) && forall fn | fn in functions :: IsFunction(fn)
    ensures TableIsRight(Program(rs.byScope, globals), table) && forall fn | fn in functions :: fn in table.Keys
  {
    if functions == [] {
      table := map[];
    } else {
      var before := CodeOutcomes(rs, functions[..|functions| - 1], globals);
      table := AddOutcome(rs, functions[|functions| - 1], globals, before);
    }
  }

  lemma AllFunctionsAreFound(p: Program, functions: seq<Unit>, find: Unit -> Outcome<CodeCapabilities, CapabilityError>)
    requires p.Valid() && FindsCode(p, functions, find)
    ensures Serial(functions, find) == Ok(seq(|functions|, i requires 0 <= i < |functions| => find(functions[i]).value))
  {
    var values := seq(|functions|, i requires 0 <= i < |functions| => find(functions[i]).value);
    forall i | 0 <= i < |functions| ensures find(functions[i]) == Ok(values[i]) {
      assert functions[i] in functions;
    }
    SerialSucceeds(functions, find, values);
  }

  /** The functions are mapped over a pool of workers, under any schedule, and the results merged in address order. */
  method FindFunctions(jobs: Jobs, rs: MatchingRuleSet, functions: seq<Unit>, globals: seq<Feature>)
    returns (r: Outcome<Merged, CapabilityError>)
    requires Usable(rs) && forall fn | fn in functions :: IsFunction(fn)
    ensures var p := Program(rs.byScope, globals); p.Valid() ==> r.Ok? && MergesFunctions(p, functions, r.value)
  {
    ghost var p := Program(rs.byScope, globals);
    var table := CodeOutcomes(rs, functions, globals);
    var find := fn => LookedUp(table, fn);
    TableFinds(p, functions, table);
    var perFunction := TryMap(jobs, functions, find);
    if p.Valid() {
      AllFunctionsAreFound(p, functions, find);
      assert forall i | 0 <= i < |functions| :: functions[i] in functions;
    }
    if perFunction.Err? { return Err(perFunction.error); }
    SerialHasAll(functions, find);
    var m := MergeFunctions(p, functions, perFunction.value);
    r := Ok(m);
  }

  method MergeFunctions(ghost p: Program, functions: seq<Unit>, perFunction: seq<CodeCapabilities>) returns (m: Merged)
    requires |perFunction| == |functions|
    requires p.Valid() ==> forall i | 0 <= i < |functions| :: ReportsCode(p, functions[i], perFunction[i])
    ensures MergesFunctions(p, functions, m)
  {
    m := Merged(map[], map[], map[], []);
    NoPartsYet(p, functions);
    for i := 0 to |functions|
      invariant MergesFunctions(p, functions[..i], m)
    {
      var code := perFunction[i];
      MergesNextFunction(p, functions, i, m, code);
      var fns := ExtendWith(m.functions, code.functions);
      var blocks := ExtendWith(m.blocks, code.blocks);
      var insns := ExtendWith(m.instructions, code.instructions);
      m := Merged(fns, blocks, insns, m.counts + [(functions[i].addr, code.featureCount)]);
    }
    assert functions[..|functions|] == functions;
  }

  lemma MergesNextFunction(p: Program, functions: seq<Unit>, i: nat, m: Merged, code: CodeCapabilities)
    requires i < |functions| && MergesFunctions(p, functions[..i], m)
    requires p.Valid() ==> ReportsCode(p, functions[i], code)
    ensures MergesFunctions(p, functions[..i + 1], Merged(
              ExtendMatches(m.functions, code.functions), ExtendMatches(m.blocks, code.blocks),
              ExtendMatches(m.instructions, code.instructions), m.counts + [(functions[i].addr, code.featureCount)]))
  {
    CollectsNextPart(p, functions, i, FunctionScope, m.functions, code.functions);
    CollectsNextPart(p, functions, i, BasicBlockScope, m.blocks, code.blocks);
    CollectsNextPart(p, functions, i, InstructionScope, m.instructions, code.instructions);
    assert functions[..i + 1][..i] == functions[..i];
  }

  /**
   `find_static_capabilities`: however the workers are scheduled and the hash maps walked, the drivers find exactly the
   specified matches, with the specified evidence at the specified addresses, and count the specified features.
   */
  method FindStaticCapabilities(jobs: Jobs, rs: MatchingRuleSet, file: Unit, globals: seq<Feature>)
    returns (r: Outcome<StaticCapabilities, CapabilityError>)
    requires Usable(rs) && IsFile(file)
    ensures var p := Program(rs.byScope, globals);
            p.Valid() ==>
              && r.Ok? && r.value.matches == StaticMatches(p, file)
              && r.value.fileFeatureCount == |Before(p, file).locs|
              && r.value.functionFeatureCounts == FunctionCounts(p, file.parts)
  {
    ghost var p := Program(rs.byScope, globals);
    var merged := FindFunctions(jobs, rs, file.parts, globals);
    if merged.Err? { return Err(merged.error); }
    var m := merged.value;
    var found := MatchFile(rs, file, globals, m);
    if found.Err? { return Err(InFile(found.error)); }
    var matches := ExtendWith(map[], m.instructions);
    matches := ExtendWith(matches, m.blocks);
    matches := ExtendWith(matches, m.functions);
    matches := ExtendWith(matches, found.value.0);
    r := Ok(StaticCapabilities(matches, found.value.1, m.counts));
  }

  lemma FileIsScanned(p: Program, file: Unit)
    requires p.Valid() && file.scope.FileScope? && file.addr == NoAddress
    ensures FileFeatures(p, file, Lower(p, file.parts)) == Before(p, file)
    ensures ScanAt(p, FileScope, Before(p, file), NoAddress) == Scan(p, file)
  {
  }

  /** The file's own matches, on top of what its functions published. */
  method MatchFile(rs: MatchingRuleSet, file: Unit, globals: seq<Feature>, m: Merged)
    returns (r: Outcome<(MatchResults, nat), EngineError>)
    requires Usable(rs) && file.scope.FileScope? && file.addr == NoAddress
    ensures var p := Program(rs.byScope, globals);
            p.Valid() && MergesFunctions(p, file.parts, m) ==>
              r.Ok? && r.value.0 == Scan(p, file).results && r.value.1 == |Before(p, file).locs|
  {
    ghost var p := Program(rs.byScope, globals);
    var lower := CollectLower(rs, p, file.parts, m);
    ghost var spec := EMPTY;
    if p.Valid() {
      spec := Lower(p, file.parts);
      FileIsScanned(p, file);
    }
    r := FindFileCapabilities(rs, file, globals, lower, spec);
  }

  method CollectLower(rs: MatchingRuleSet, ghost p: Program, ghost functions: seq<Unit>, m: Merged)
    returns (lower: FeatureSet)
    requires Usable(rs) && p.rules == rs.byScope
    ensures p.Valid() && MergesFunctions(p, functions, m) ==> Equivalent(lower, Lower(p, functions))
  {
    var features := new FeatureMap();
    ghost var spec: FeatureSet := EMPTY;
    PublishScopeMatches(rs, p, functions, InstructionScope, features, m.instructions, spec);
    spec := PublishEach(spec, p.RulesAt(InstructionScope), MatchAddresses(m.instructions));
    PublishScopeMatches(rs, p, functions, BasicBlockScope, features, m.blocks, spec);
    spec := PublishEach(spec, p.RulesAt(BasicBlockScope), MatchAddresses(m.blocks));
    PublishScopeMatches(rs, p, functions, FunctionScope, features, m.functions, spec);
    lower := features.View();
  }

  /**
   End to end: what `FindStaticCapabilities` returns for a rule set built from `rules` lists each of those rules exactly
   at the addresses of the units that have one of its scopes and satisfy its body as it was written, whatever verdicts
   `m` the rules are given that fit their bodies.
   */
  lemma CapabilitiesAreMeant(rs: MatchingRuleSet, rules: seq<Rule>, globals: seq<Feature>, m: Verdicts, rule: Rule,
                             file: Unit)
    requires Acceptable(rules) && FreshNames(rules) && NoNameIsANamespace(rules)
             && forall r | r in rules :: ReadyBody(r.body)
    requires rs.BuiltFor(Expand(rules)) && rule in rules
    requires WellNested(file) && file.scope.FileScope? && NoMatchFeatures(Program(rs.byScope, globals), file)
    requires Solves(Program(rs.byScope, globals), rules, m, file)
    ensures var p := Program(rs.byScope, globals);
            && p.Valid()
            && RecordsAt(StaticMatches(p, file), rule.name, MeantUnits(p, rules, m, rule, file))
  {
    var p := Program(rs.byScope, globals);
    MeantAreMatched(rs, rules, globals, m, rule, file);
    StaticMatchesContents(p, file, rule.name);
  }
}
