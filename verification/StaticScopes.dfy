/**
 capa-x/src/capabilities/static_analysis.rs and dynamic_analysis.rs: what the bottom-up drivers compute, as functions of
 the analysed tree. `StaticDriver`, `DynamicDriver` and `ProcessDriver` hold the drivers themselves.
 */
module StaticScopes {
  import opened Base
  import opened Features
  import opened FeatureSets
  import opened Rules
  import opened Engine
  import opened RuleIndex
  import opened RuleGraph

  /**
   One analysed unit: an instruction, a basic block of instructions, a function of blocks, or the file; or a call, a
   thread of calls, or a process of threads.
   */
  datatype Unit = Unit(scope: Scope, addr: Address, features: seq<(Address, Feature)>, parts: seq<Unit>)

  /** The scopes of a unit's parts. */
  function PartScope(scope: Scope): Option<Scope> {
    match scope
    case FileScope => Some(FunctionScope)
    case FunctionScope => Some(BasicBlockScope)
    case BasicBlockScope => Some(InstructionScope)
    case ProcessScope => Some(ThreadScope)
    case ThreadScope => Some(CallScope)
    case _ => None
  }

  function ScopeRank(scope: Scope): nat {
    match scope
    case FileScope => 3
    case FunctionScope => 2
    case ProcessScope => 2
    case BasicBlockScope => 1
    case ThreadScope => 1
    case _ => 0
  }

  predicate IsStatic(scope: Scope) {
    scope in {InstructionScope, BasicBlockScope, FunctionScope, FileScope}
  }

  ghost predicate WellNested(u: Unit)
    decreases u
  {
    && (u.scope.FileScope? ==> u.addr == NoAddress)
    && (IsStatic(u.scope) || u.scope in {CallScope, ThreadScope, ProcessScope})
    && (PartScope(u.scope).None? ==> u.parts == [])
    && forall p | p in u.parts :: PartScope(u.scope) == Some(p.scope) && WellNested(p)
  }

  /** The rules of each scope, in the order they are matched, and the features seeded into every unit. */
  datatype Program = Program(rules: map<Scope, seq<Rule>>, globals: seq<Feature>) {
    function RulesAt(scope: Scope): seq<Rule> {
      if scope in rules then rules[scope] else []
    }

    ghost predicate Valid() {
      forall scope :: UniqueNames(RulesAt(scope)) && forall rule | rule in RulesAt(scope) :: Evaluable(rule.body)
    }
  }

  function AtNoAddress(globals: seq<Feature>): seq<(Address, Feature)> {
    seq(|globals|, i requires 0 <= i < |globals| => (NoAddress, globals[i]))
  }

  /** What `seed` inserts into a unit's feature set. */
  function Entries(p: Program, u: Unit): seq<(Address, Feature)> {
    u.features + AtNoAddress(p.globals)
  }

  /** A unit is fed its own features, and the global ones without an address. */
  lemma EntriesAre(p: Program, u: Unit, addr: Address, f: Feature)
    ensures (addr, f) in Entries(p, u) <==> (addr, f) in u.features || (addr == NoAddress && f in p.globals)
  {
    var seeded := AtNoAddress(p.globals);
    forall i | 0 <= i < |seeded| ensures seeded[i] in seeded && seeded[i] == (NoAddress, p.globals[i]) {
    }
  }

  /** The scan of one scope over a feature set; it succeeds because the rules are evaluable. */
  function ScanAt(p: Program, scope: Scope, fs: FeatureSet, addr: Address): ScanState
    requires p.Valid()
  {
    EvaluableScanSucceeds(p.RulesAt(scope), |p.RulesAt(scope)|, fs, addr);
    LinearScan(p.RulesAt(scope), |p.RulesAt(scope)|, fs, addr).value
  }

  /** `guarded_insert`: at file scope a feature without an address gets an entry but no location. */
  function GuardedInsert(fs: FeatureSet, e: (Address, Feature)): FeatureSet {
    InsertMany(fs, e.1, if e.0 == NoAddress then {} else {e.0})
  }

  function InsertGuarded(fs: FeatureSet, entries: seq<(Address, Feature)>): FeatureSet {
    if entries == [] then fs
    else GuardedInsert(InsertGuarded(fs, entries[..|entries| - 1]), entries[|entries| - 1])
  }

  /** `extend_matches`: append the matches of each rule. */
  function ExtendMatches(into: MatchResults, from: MatchResults): MatchResults {
    map name | name in into.Keys + from.Keys :: Recorded(into, name) + Recorded(from, name)
  }

  /** The addresses at which each rule matched. */
  function MatchAddresses(results: MatchResults): map<string, set<Address>> {
    map name | name in results :: set m | m in results[name] :: m.0
  }

  /** Publish the matches of `rule`, if it has any. */
  function PublishOne(fs: FeatureSet, rule: Rule, at: map<string, set<Address>>): FeatureSet {
    if rule.name in at then IndexRuleMatches(fs, rule, at[rule.name]) else fs
  }

  /** Publish the matches of each of `rules`, in order. */
  function PublishEach(fs: FeatureSet, rules: seq<Rule>, at: map<string, set<Address>>): FeatureSet {
    if rules == [] then fs
    else PublishOne(PublishEach(fs, rules[..|rules| - 1], at), rules[|rules| - 1], at)
  }

  // ---- the drivers' results ----

  /** The features a unit is matched against: those of its parts with their matches, then its own. */
  function Before(p: Program, u: Unit): FeatureSet
    requires p.Valid()
    decreases u, 0
  {
    if u.scope.FileScope? then Merge(InsertGuarded(EMPTY, Entries(p, u)), Lower(p, u.parts))
    else InsertAll(MergeParts(p, u.parts), Entries(p, u))
  }

  function MergeParts(p: Program, parts: seq<Unit>): FeatureSet
    requires p.Valid()
    decreases parts
  {
    if parts == [] then EMPTY
    else Merge(MergeParts(p, parts[..|parts| - 1]), Scan(p, parts[|parts| - 1]).features)
  }

  function Scan(p: Program, u: Unit): ScanState
    requires p.Valid()
    decreases u, 1
  {
    ScanAt(p, u.scope, Before(p, u), u.addr)
  }

  /** The matches of one scope in a unit and everything below it, in address order. */
  function MatchesOf(p: Program, u: Unit, scope: Scope): MatchResults
    requires p.Valid()
    decreases u, 2
  {
    if u.scope == scope then Scan(p, u).results else MatchesOfParts(p, u.parts, scope)
  }

  function MatchesOfParts(p: Program, parts: seq<Unit>, scope: Scope): MatchResults
    requires p.Valid()
    decreases parts, 0
  {
    if parts == [] then map[]
    else ExtendMatches(MatchesOfParts(p, parts[..|parts| - 1], scope), MatchesOf(p, parts[|parts| - 1], scope))
  }

  /** All that file scope sees of the lower scopes: the `match` features of everything that matched there. */
  function Lower(p: Program, functions: seq<Unit>): FeatureSet
    requires p.Valid()
    decreases functions, 1
  {
    var instructions := PublishEach(EMPTY, p.RulesAt(InstructionScope),
                                    MatchAddresses(MatchesOfParts(p, functions, InstructionScope)));
    var blocks := PublishEach(instructions, p.RulesAt(BasicBlockScope),
                              MatchAddresses(MatchesOfParts(p, functions, BasicBlockScope)));
    PublishEach(blocks, p.RulesAt(FunctionScope), MatchAddresses(MatchesOfParts(p, functions, FunctionScope)))
  }

  /** Everything `find_static_capabilities` returns for a file. */
  function StaticMatches(p: Program, file: Unit): MatchResults
    requires p.Valid()
  {
    ExtendMatches(
      ExtendMatches(
        ExtendMatches(ExtendMatches(map[], MatchesOfParts(p, file.parts, InstructionScope)),
                      MatchesOfParts(p, file.parts, BasicBlockScope)),
        MatchesOfParts(p, file.parts, FunctionScope)),
      Scan(p, file).results)
  }

  // ---- units within units ----

  /** A unit and everything it encloses. */
  function Units(u: Unit): set<Unit>
    decreases u
  {
    {u} + UnitsIn(u.parts)
  }

  function UnitsIn(parts: seq<Unit>): set<Unit>
    decreases parts
  {
    if parts == [] then {} else UnitsIn(parts[..|parts| - 1]) + Units(parts[|parts| - 1])
  }

  lemma {:induction false} UnitsInParts(parts: seq<Unit>)
    ensures forall v :: v in UnitsIn(parts) <==> exists part | part in parts :: v in Units(part)
    decreases parts
  {
    if parts != [] {
      var init, last := parts[..|parts| - 1], parts[|parts| - 1];
      UnitsInParts(init);
      assert parts == init + [last];
      forall v ensures v in UnitsIn(parts) <==> exists part | part in parts :: v in Units(part) {
        if part :| part in parts && v in Units(part) {
          assert part in init || part == last;
        }
        if v in UnitsIn(init) {
          var part :| part in init && v in Units(part);
          assert part in parts;
        }
      }
    }
  }

  lemma {:induction false} UnitsAreWellNested(u: Unit, v: Unit)
    requires WellNested(u) && v in Units(u)
    ensures WellNested(v)
    ensures v == u || ScopeRank(v.scope) < ScopeRank(u.scope)
    ensures IsStatic(v.scope) <==> IsStatic(u.scope)
    decreases u
  {
    if v != u {
      UnitsInParts(u.parts);
      var part :| part in u.parts && v in Units(part);
      UnitsAreWellNested(part, v);
    }
  }

  /** Enclosure is transitive. */
  lemma {:induction false} UnitsNest(u: Unit, v: Unit, w: Unit)
    requires v in Units(u) && w in Units(v)
    ensures w in Units(u)
    decreases u
  {
    if v != u {
      UnitsInParts(u.parts);
      var part :| part in u.parts && v in Units(part);
      UnitsNest(part, v, w);
    }
  }
}
