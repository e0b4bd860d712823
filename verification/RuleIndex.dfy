/**
 capa-x/src/capabilities/ruleset.rs: matching one scope through a conservative feature index,
 and the proof that it is the linear scan over the scope's rules.
 */
module RuleIndex {
  import opened Base
  import opened Features
  import opened FeatureSets
  import opened Rules
  import opened Engine

  // ---- the linear scan ----

  datatype ScanState = ScanState(features: FeatureSet, results: MatchResults)

  type ScanOutcome = Outcome<ScanState, EngineError>

  /** One rule of the scan: a match is published before the next rule is looked at. */
  function ScanRule(st: ScanState, rule: Rule, addr: Address): ScanOutcome {
    var matched :- EvaluateBoolean(rule.body, st.features.locs);
    if !matched then Ok(st)
    else
      var full :- Evaluate(rule.body, st.features, false);
      Ok(ScanState(IndexRuleMatches(st.features, rule, {addr}), Record(st.results, rule.name, addr, full)))
  }

  /** Every one of the first `n` rules, once, in order. */
  function LinearScan(rules: seq<Rule>, n: nat, fs: FeatureSet, addr: Address): ScanOutcome
    requires n <= |rules|
  {
    if n == 0 then Ok(ScanState(fs, map[]))
    else
      var st :- LinearScan(rules, n - 1, fs, addr);
      ScanRule(st, rules[n - 1], addr)
  }

  lemma {:induction false} LongerScanFails(rules: seq<Rule>, m: nat, n: nat, fs: FeatureSet, addr: Address)
    requires m <= n <= |rules|
    requires LinearScan(rules, n, fs, addr).Ok?
    ensures LinearScan(rules, m, fs, addr).Ok?
  {
    if m < n {
      LongerScanFails(rules, m, n - 1, fs, addr);
    }
  }

  // ---- what a rule needs ----

  function IndexScore(f: Feature): nat {
    match f
    case MatchedRule(_) => 9
    case String(str) => if str.Plain? then 9 else 0
    case Api(_) => 8
    case Export(_) => 7
    case Number(v) => NumberScore(v)
    case OperandNumber(_, v) => NumberScore(v)
    case Class(_) => 5
    case Namespace(_) => 5
    case Property(_, _) => 5
    case Import(_) => 5
    case Section(_) => 5
    case FunctionName(_) => 5
    case Characteristic(_) => 4
    case Offset(_) => 4
    case OperandOffset(_, _) => 4
    case Mnemonic(_) => 2
    case BasicBlock => 1
    case Os(_) => 0
    case Arch(_) => 0
    case Format(_) => 0
    case Bytes(_) => 0
    case Com(_, _) => 0
  }

  function NumberScore(v: NumberValue): nat {
    if v.Int? && (-0x8000 <= v.i <= 0x8000
                  || 0xffff_ff00 <= v.i <= 0xffff_ffff
                  || 0xffff_ffff_ffff_ff00 <= v.i <= 0xffff_ffff_ffff_ffff)
    then 3 else 7
  }

  /** A score and the alternatives, one of which must be present for the rule to match. */
  datatype Required = Required(score: nat, alternatives: set<Feature>)

  const MAX_SCORE: nat := 255

  /** Whether `a` is at least as good an anchor as `b`: a higher score, then fewer alternatives. */
  predicate AtLeastAsGood(a: Required, b: Required) {
    a.score > b.score || (a.score == b.score && |a.alternatives| <= |b.alternatives|)
  }

  function RequiredFeatures(node: Node): Option<Required>
    decreases node
  {
    match node.stmt
    case Not(_) => None
    case Subscope(_, _) => None
    case Leaf(f) => Some(Required(IndexScore(f), {f}))
    case Range(f, min, _) => if min == 0 then None else Some(Required(IndexScore(f), {f}))
    case And(children) => BestAnchor(children)
    case Or(children) => AllAlternatives(children)
    case SomeOf(count, children) => if count == 0 then None else AllAlternatives(children)
  }

  /** The best requirement among the children, the last of equals. */
  function BestAnchor(children: seq<Node>): Option<Required>
    decreases children
  {
    if children == [] then None
    else
      var first, rest := RequiredFeatures(children[0]), BestAnchor(children[1..]);
      if first.None? then rest
      else if rest.None? || !AtLeastAsGood(rest.value, first.value) then first
      else rest
  }

  /** The alternatives of every child, provided each child has a requirement. */
  function AllAlternatives(children: seq<Node>): Option<Required>
    decreases children
  {
    if children == [] then Some(Required(MAX_SCORE, {}))
    else
      var first, rest := RequiredFeatures(children[0]), AllAlternatives(children[1..]);
      if first.None? || rest.None? then None
      else Some(Required(if first.value.score <= rest.value.score then first.value.score else rest.value.score,
                         first.value.alternatives + rest.value.alternatives))
  }

  // ---- buckets ----

  datatype Bucket = Strings | AnyBytes | AnyOs | Exact(f: Feature)

  function BucketOf(f: Feature): Bucket {
    if f.String? && !f.str.Plain? then Strings
    else if f.Bytes? then AnyBytes
    else if f.Os? then AnyOs
    else Exact(f)
  }

  predicate BucketPresent(b: Bucket, keys: set<Feature>) {
    match b
    case Strings => exists k | k in keys :: k.String?
    case AnyBytes => exists k | k in keys :: k.Bytes?
    case AnyOs => exists k | k in keys :: k.Os?
    case Exact(f) => f in keys
  }

  /** Whether the index lets a rule with this body be tried against these keys. */
  predicate Triggered(body: Node, keys: set<Feature>) {
    RequirementMet(RequiredFeatures(body), keys)
  }

  /** One of the alternatives has its bucket present, if there is a requirement at all. */
  predicate RequirementMet(required: Option<Required>, keys: set<Feature>) {
    required.Some? ==> exists f | f in required.value.alternatives :: BucketPresent(BucketOf(f), keys)
  }

  /** The index is conservative: a body can be true only where one of its alternatives has its bucket present. */
  lemma {:induction false} TrueOnlyIfTriggered(node: Node, locs: map<Feature, set<Address>>)
    requires EvaluateBoolean(node, locs) == Ok(true)
    ensures RequirementMet(RequiredFeatures(node), locs.Keys)
    decreases node
  {
    match node.stmt
    case And(children) => AnchorIsRequired(children, locs);
    case Or(children) => OneAlternativeIsRequired(children, locs, 0, 1);
    case SomeOf(count, children) => if count > 0 { OneAlternativeIsRequired(children, locs, 0, count); }
    case Not(_) =>
    case Subscope(_, _) =>
    case Range(f, min, _) => assert min > 0 ==> f in locs;
    case Leaf(f) =>
      assert f in RequiredFeatures(node).value.alternatives;
  }

  lemma {:induction false} AnchorIsRequired(children: seq<Node>, locs: map<Feature, set<Address>>)
    requires AllTrue(children, locs) == Ok(true)
    ensures RequirementMet(BestAnchor(children), locs.Keys)
    decreases children
  {
    if children != [] {
      TrueOnlyIfTriggered(children[0], locs);
      AnchorIsRequired(children[1..], locs);
    }
  }

  lemma {:induction false} OneAlternativeIsRequired(children: seq<Node>, locs: map<Feature, set<Address>>,
                                                    satisfied: nat, count: nat)
    requires satisfied < count
    requires AnyTrue(children, locs) == Ok(true) || Satisfied(children, locs, satisfied, count) == Ok(true)
    ensures AllAlternatives(children).Some? ==> RequirementMet(AllAlternatives(children), locs.Keys)
    decreases children
  {
    if AllAlternatives(children).Some? {
      if EvaluateBoolean(children[0], locs) == Ok(true) {
        TrueOnlyIfTriggered(children[0], locs);
      } else {
        OneAlternativeIsRequired(children[1..], locs, satisfied, count);
      }
    }
  }

  // ---- the index ----

  datatype RuleFeatureIndex = RuleFeatureIndex(
    exact: map<Feature, seq<nat>>,
    strings: seq<nat>,
    bytes: seq<nat>,
    os: seq<nat>,
    always: seq<nat>)

  function Positions(index: RuleFeatureIndex, b: Bucket): seq<nat> {
    match b
    case Strings => index.strings
    case AnyBytes => index.bytes
    case AnyOs => index.os
    case Exact(f) => if f in index.exact then index.exact[f] else []
  }

  predicate Listed(index: RuleFeatureIndex, b: Bucket, p: nat) {
    p in Positions(index, b)
  }

  function Pushed(positions: seq<nat>, p: nat): seq<nat> {
    if positions != [] && positions[|positions| - 1] == p then positions else positions + [p]
  }

  function AddTo(index: RuleFeatureIndex, b: Bucket, p: nat): RuleFeatureIndex {
    var pushed := Pushed(Positions(index, b), p);
    match b
    case Strings => index.(strings := pushed)
    case AnyBytes => index.(bytes := pushed)
    case AnyOs => index.(os := pushed)
    case Exact(f) => index.(exact := index.exact[f := pushed])
  }

  ghost predicate NeedsBucket(body: Node, b: Bucket) {
    var required := RequiredFeatures(body);
    required.Some? && exists f | f in required.value.alternatives :: BucketOf(f) == b
  }

  /** The index lists, under each bucket, exactly those of the first `n` rules that need it. */
  ghost predicate Indexes(index: RuleFeatureIndex, rules: seq<Rule>, n: nat)
    requires n <= |rules|
  {
    && (forall p: nat :: p in index.always <==> p < n && RequiredFeatures(rules[p].body).None?)
    && (forall b, p: nat :: Listed(index, b, p) <==> p < n && NeedsBucket(rules[p].body, b))
  }

  lemma AddToPositions(index: RuleFeatureIndex, b: Bucket, p: nat)
    ensures AddTo(index, b, p).always == index.always
    ensures forall c, q: nat :: Listed(AddTo(index, b, p), c, q) <==> Listed(index, c, q) || (c == b && q == p)
  {
    var before := Positions(index, b);
    assert forall q: nat :: q in Pushed(before, p) <==> q in before || q == p;
    forall c, q: nat
      ensures Listed(AddTo(index, b, p), c, q) <==> Listed(index, c, q) || (c == b && q == p)
    {
      if c != b {
        assert Positions(AddTo(index, b, p), c) == Positions(index, c);
      } else {
        assert Positions(AddTo(index, b, p), c) == Pushed(before, p);
      }
    }
  }

  method NewIndex(rules: seq<Rule>) returns (index: RuleFeatureIndex)
    ensures Indexes(index, rules, |rules|)
  {
    index := RuleFeatureIndex(map[], [], [], [], []);
    assert forall b :: Positions(index, b) == [];
    for position := 0 to |rules|
      invariant Indexes(index, rules, position)
    {
      var required := RequiredFeatures(rules[position].body);
      if required.None? {
        ghost var before := index;
        index := index.(always := index.always + [position]);
        assert forall b :: Positions(index, b) == Positions(before, b);
        assert forall b, p: nat :: Listed(index, b, p) <==> Listed(before, b, p);
      } else {
        index := IndexRule(index, rules, position, required.value.alternatives);
      }
    }
  }

  /** Register one rule under each of its alternatives, in whatever order the set yields them. */
  method IndexRule(before: RuleFeatureIndex, rules: seq<Rule>, position: nat, alternatives: set<Feature>)
    returns (index: RuleFeatureIndex)
    requires position < |rules| && Indexes(before, rules, position)
    requires RequiredFeatures(rules[position].body).Some?
    requires RequiredFeatures(rules[position].body).value.alternatives == alternatives
    ensures Indexes(index, rules, position + 1)
  {
    index := before;
    var rest := alternatives;
    while rest != {}
      invariant rest <= alternatives
      invariant index.always == before.always
      invariant forall b, p: nat :: Listed(index, b, p) <==>
                  Listed(before, b, p) || (p == position && exists f | f in alternatives - rest :: BucketOf(f) == b)
    {
      var f :| f in rest;
      AddToPositions(index, BucketOf(f), position);
      index := AddTo(index, BucketOf(f), position);
      assert alternatives - (rest - {f}) == alternatives - rest + {f};
      rest := rest - {f};
    }
    assert alternatives - {} == alternatives;
  }

  /** The rules the index lets through for these keys. */
  ghost function TriggeredFrom(rules: seq<Rule>, next: nat, keys: set<Feature>): set<nat> {
    set p | next <= p < |rules| && Triggered(rules[p].body, keys)
  }

  lemma TriggeredByBucket(index: RuleFeatureIndex, rules: seq<Rule>, p: nat, keys: set<Feature>)
    requires Indexes(index, rules, |rules|)
    ensures p in TriggeredFrom(rules, 0, keys)
            <==> p in index.always || exists b :: BucketPresent(b, keys) && Listed(index, b, p)
  {
    if p in TriggeredFrom(rules, 0, keys) && p !in index.always {
      var f :| f in RequiredFeatures(rules[p].body).value.alternatives && BucketPresent(BucketOf(f), keys);
      assert NeedsBucket(rules[p].body, BucketOf(f));
      assert Listed(index, BucketOf(f), p);
    }
    if b :| BucketPresent(b, keys) && Listed(index, b, p) {
      assert NeedsBucket(rules[p].body, b);
      var f :| f in RequiredFeatures(rules[p].body).value.alternatives && BucketOf(f) == b;
      assert Triggered(rules[p].body, keys);
      assert p in TriggeredFrom(rules, 0, keys);
    }
    if p in index.always {
      assert Triggered(rules[p].body, keys);
      assert p in TriggeredFrom(rules, 0, keys);
    }
  }

  /** One pass over the keys: the rules they select exactly, and which of the coarse kinds occur. */
  method ScanKeys(index: RuleFeatureIndex, keys: seq<Feature>)
    returns (exact: set<nat>, strings: bool, bytes: bool, os: bool)
    ensures strings <==> exists k | k in KeySet(keys) :: k.String?
    ensures bytes <==> exists k | k in KeySet(keys) :: k.Bytes?
    ensures os <==> exists k | k in KeySet(keys) :: k.Os?
    ensures forall p: nat :: p in exact <==> exists k | k in KeySet(keys) :: Listed(index, Exact(k), p)
  {
    exact, strings, bytes, os := {}, false, false, false;
    for i := 0 to |keys|
      invariant strings <==> exists k | k in KeySet(keys[..i]) :: k.String?
      invariant bytes <==> exists k | k in KeySet(keys[..i]) :: k.Bytes?
      invariant os <==> exists k | k in KeySet(keys[..i]) :: k.Os?
      invariant forall p: nat :: p in exact <==> exists k | k in KeySet(keys[..i]) :: Listed(index, Exact(k), p)
    {
      var k := keys[i];
      assert keys[..i + 1] == keys[..i] + [k];
      KeySetAppend(keys[..i], k);
      exact := exact + set p | p in Positions(index, Exact(k));
      strings := strings || k.String?;
      bytes := bytes || k.Bytes?;
      os := os || k.Os?;
    }
    assert keys[..|keys|] == keys;
  }

  method Candidates(index: RuleFeatureIndex, ghost rules: seq<Rule>, fs: FeatureSet) returns (candidates: set<nat>)
    requires Indexes(index, rules, |rules|)
    ensures candidates == TriggeredFrom(rules, 0, fs.locs.Keys)
  {
    var exact, strings, bytes, os := ScanKeys(index, fs.keys);
    candidates := (set p | p in index.always) + exact;
    if strings { candidates := candidates + set p | p in index.strings; }
    if bytes { candidates := candidates + set p | p in index.bytes; }
    if os { candidates := candidates + set p | p in index.os; }
    forall p: nat
      ensures p in candidates <==> p in TriggeredFrom(rules, 0, fs.locs.Keys)
    {
      TriggeredByBucket(index, rules, p, fs.locs.Keys);
      PresentBuckets(index, p, fs.locs.Keys);
    }
  }

  /** A rule is listed under some present bucket exactly when one of the index's four lookups finds it. */
  lemma PresentBuckets(index: RuleFeatureIndex, p: nat, keys: set<Feature>)
    ensures (exists b :: BucketPresent(b, keys) && Listed(index, b, p))
            <==>
            || (BucketPresent(Strings, keys) && p in index.strings)
            || (BucketPresent(AnyBytes, keys) && p in index.bytes)
            || (BucketPresent(AnyOs, keys) && p in index.os)
            || exists k | k in keys :: Listed(index, Exact(k), p)
  {
    assert Positions(index, Strings) == index.strings;
    assert Positions(index, AnyBytes) == index.bytes;
    assert Positions(index, AnyOs) == index.os;
    if k :| k in keys && Listed(index, Exact(k), p) {
      assert BucketPresent(Exact(k), keys);
    }
  }

  // ---- indexed matching ----

  /** `st` is where the linear scan stands after `n` rules, if that scan succeeds as a whole. */
  ghost predicate ScanStands(rules: seq<Rule>, n: nat, fs: FeatureSet, addr: Address, st: ScanState)
    requires n <= |rules|
  {
    LinearScan(rules, |rules|, fs, addr).Ok? ==> LinearScan(rules, n, fs, addr) == Ok(st)
  }

  lemma ScanAdvances(rules: seq<Rule>, n: nat, fs: FeatureSet, addr: Address, st: ScanState)
    requires n < |rules| && ScanStands(rules, n, fs, addr, st)
    requires LinearScan(rules, |rules|, fs, addr).Ok?
    ensures ScanRule(st, rules[n], addr).Ok?
    ensures ScanStands(rules, n + 1, fs, addr, ScanRule(st, rules[n], addr).value)
  {
    LongerScanFails(rules, n + 1, |rules|, fs, addr);
  }

  lemma ScanTries(rules: seq<Rule>, n: nat, fs: FeatureSet, addr: Address, st: ScanState)
    requires n < |rules| && ScanStands(rules, n, fs, addr, st)
    ensures match ScanRule(st, rules[n], addr)
            case Ok(after) => ScanStands(rules, n + 1, fs, addr, after)
            case Err(_) => LinearScan(rules, |rules|, fs, addr).Err?
  {
    if LinearScan(rules, |rules|, fs, addr).Ok? {
      ScanAdvances(rules, n, fs, addr, st);
    }
  }

  lemma {:induction false} UntriggeredAreSkipped(rules: seq<Rule>, m: nat, n: nat, fs: FeatureSet, addr: Address,
                                                 st: ScanState)
    requires m <= n <= |rules| && ScanStands(rules, m, fs, addr, st)
    requires forall i | m <= i < n :: !Triggered(rules[i].body, st.features.locs.Keys)
    ensures ScanStands(rules, n, fs, addr, st)
  {
    if m < n && LinearScan(rules, |rules|, fs, addr).Ok? {
      UntriggeredAreSkipped(rules, m, n - 1, fs, addr, st);
      ScanAdvances(rules, n - 1, fs, addr, st);
      if EvaluateBoolean(rules[n - 1].body, st.features.locs) == Ok(true) {
        TrueOnlyIfTriggered(rules[n - 1].body, st.features.locs);
      }
    }
  }

  lemma CandidatesSkipTo(rules: seq<Rule>, m: nat, n: nat, fs: FeatureSet, addr: Address, st: ScanState)
    requires m <= n <= |rules| && ScanStands(rules, m, fs, addr, st)
    requires forall i | m <= i < n :: i !in TriggeredFrom(rules, m, st.features.locs.Keys)
    ensures ScanStands(rules, n, fs, addr, st)
  {
    forall i | m <= i < n ensures !Triggered(rules[i].body, st.features.locs.Keys) {
      assert i !in TriggeredFrom(rules, m, st.features.locs.Keys);
    }
    UntriggeredAreSkipped(rules, m, n, fs, addr, st);
  }

  /** New `match` keys trigger exactly the rules listed under them. */
  lemma NewKeysTrigger(index: RuleFeatureIndex, rules: seq<Rule>, p: nat, before: set<Feature>, added: seq<Feature>)
    requires Indexes(index, rules, |rules|) && p < |rules|
    requires forall k | k in added :: k.MatchedRule?
    ensures Triggered(rules[p].body, before + set k | k in added)
            <==> Triggered(rules[p].body, before) || exists k | k in added :: Listed(index, Exact(k), p)
  {
    var after := before + set k | k in added;
    var required := RequiredFeatures(rules[p].body);
    if required.Some? {
      forall f | f in required.value.alternatives
        ensures BucketPresent(BucketOf(f), after)
                <==> BucketPresent(BucketOf(f), before) || (f in added && BucketOf(f) == Exact(f))
      {
      }
      if k :| k in added && Listed(index, Exact(k), p) {
        assert NeedsBucket(rules[p].body, Exact(k));
      }
      if f :| f in required.value.alternatives && f in added {
        assert BucketOf(f) == Exact(f);
        assert NeedsBucket(rules[p].body, Exact(f));
      }
    }
  }

  lemma Least(s: set<nat>) returns (m: nat)
    requires s != {}
    ensures m in s && forall x | x in s :: m <= x
  {
    m :| m in s;
    if s != {m} {
      assert forall x :: x in s ==> x == m || x in s - {m};
      var rest := Least(s - {m});
      m := if rest < m then rest else m;
    }
  }

  /** Take the least candidate out. */
  method PopFirst(candidates: set<nat>) returns (position: nat, rest: set<nat>)
    requires candidates != {}
    ensures position in candidates && (forall p | p in candidates :: position <= p)
    ensures rest == candidates - {position}
  {
    ghost var least := Least(candidates);
    position :| position in candidates && forall p | p in candidates :: position <= p;
    rest := candidates - {position};
  }

  /** Without the first candidate, those of the rules behind it are left. */
  lemma FirstIsNext(rules: seq<Rule>, next: nat, keys: set<Feature>, position: nat, rest: set<nat>)
    requires position in TriggeredFrom(rules, next, keys)
    requires forall p | p in TriggeredFrom(rules, next, keys) :: position <= p
    requires rest == TriggeredFrom(rules, next, keys) - {position}
    ensures next <= position < |rules| && rest == TriggeredFrom(rules, position + 1, keys)
    ensures forall i | next <= i < position :: i !in TriggeredFrom(rules, next, keys)
  {
  }

  /**
   The matcher: try the candidates in order, and let each published match activate the rules that wait for it.
   Whenever the linear scan succeeds, the outcome is the linear scan's: the same features in the same key order and
   the same evidence.
   */
  method MatchScope(index: RuleFeatureIndex, rules: seq<Rule>, fs: FeatureSet, addr: Address) returns (r: ScanOutcome)
    requires Indexes(index, rules, |rules|)
    ensures LinearScan(rules, |rules|, fs, addr).Ok? ==> r == LinearScan(rules, |rules|, fs, addr)
  {
    var st := ScanState(fs, map[]);
    ghost var next := 0;
    var candidates := Candidates(index, rules, fs);
    while candidates != {}
      invariant next <= |rules|
      invariant candidates == TriggeredFrom(rules, next, st.features.locs.Keys)
      invariant ScanStands(rules, next, fs, addr, st)
      decreases |rules| - next
    {
      var position, rest := PopFirst(candidates);
      FirstIsNext(rules, next, st.features.locs.Keys, position, rest);
      CandidatesSkipTo(rules, next, position, fs, addr, st);
      var step := TryRule(index, rules, position, st, addr, rest);
      ScanTries(rules, position, fs, addr, st);
      if step.Err? { return Err(step.error); }
      st, candidates := step.value.0, step.value.1;
      next := position + 1;
    }
    CandidatesSkipTo(rules, next, |rules|, fs, addr, st);
    r := Ok(st);
  }

  /** Evaluate one rule; on a match, collect its evidence, publish it and wake the rules that wait for it. */
  method TryRule(index: RuleFeatureIndex, rules: seq<Rule>, position: nat, st: ScanState, addr: Address,
                 waiting: set<nat>)
    returns (r: Outcome<(ScanState, set<nat>), EngineError>)
    requires Indexes(index, rules, |rules|) && position < |rules|
    requires waiting == TriggeredFrom(rules, position + 1, st.features.locs.Keys)
    ensures var step := ScanRule(st, rules[position], addr);
            match r
            case Ok((after, candidates)) =>
              step == Ok(after) && candidates == TriggeredFrom(rules, position + 1, after.features.locs.Keys)
            case Err(e) => step == Err(e)
  {
    var rule := rules[position];
    var matched := EvaluateBooleanPass(rule.body, st.features.locs);
    if matched.Err? { return Err(matched.error); }
    if !matched.value { return Ok((st, waiting)); }
    var full := Evaluate(rule.body, st.features, false);
    if full.Err? { return Err(full.error); }
    var features := IndexRuleMatches(st.features, rule, {addr});
    PublishNamesKeys(st.features, PublishedNames(rule), {addr});
    var candidates := Activate(index, position, features.keys[|st.features.keys|..], waiting);
    ActivatedAreTriggered(index, rules, position, st.features, features, waiting, candidates);
    r := Ok((ScanState(features, Record(st.results, rule.name, addr, full.value)), candidates));
  }

  /** Add the later rules that are listed under a newly published key. */
  method Activate(index: RuleFeatureIndex, position: nat, added: seq<Feature>, waiting: set<nat>)
    returns (candidates: set<nat>)
    ensures forall p: nat :: p in candidates <==>
              p in waiting || (p > position && exists k | k in added :: Listed(index, Exact(k), p))
  {
    candidates := waiting;
    for i := 0 to |added|
      invariant forall p: nat :: p in candidates <==>
                  p in waiting || (p > position && exists k | k in added[..i] :: Listed(index, Exact(k), p))
    {
      var k := added[i];
      assert forall x :: x in added[..i + 1] <==> x in added[..i] || x == k;
      candidates := candidates + set p | p in Positions(index, Exact(k)) && p > position;
    }
    assert added[..|added|] == added;
  }

  lemma AppendedKeys(before: FeatureSet, after: FeatureSet)
    requires before.keys <= after.keys
    ensures after.locs.Keys == before.locs.Keys + set k | k in after.keys[|before.keys|..]
  {
    KeySetMeans(before.keys);
    KeySetMeans(after.keys);
    assert after.keys == before.keys + after.keys[|before.keys|..];
  }

  lemma ActivatedAreTriggered(index: RuleFeatureIndex, rules: seq<Rule>, position: nat, before: FeatureSet,
                              after: FeatureSet, waiting: set<nat>, candidates: set<nat>)
    requires Indexes(index, rules, |rules|) && position < |rules|
    requires before.keys <= after.keys && forall k | k in after.keys[|before.keys|..] :: k.MatchedRule?
    requires waiting == TriggeredFrom(rules, position + 1, before.locs.Keys)
    requires forall p: nat :: p in candidates <==>
               p in waiting
               || (p > position && exists k | k in after.keys[|before.keys|..] :: Listed(index, Exact(k), p))
    ensures candidates == TriggeredFrom(rules, position + 1, after.locs.Keys)
  {
    var added := after.keys[|before.keys|..];
    AppendedKeys(before, after);
    forall p: nat ensures p in candidates <==> p in TriggeredFrom(rules, position + 1, after.locs.Keys) {
      if p < |rules| {
        NewKeysTrigger(index, rules, p, before.locs.Keys, added);
      } else if k :| k in added && Listed(index, Exact(k), p) {
        assert false;
      }
    }
  }

  /** On evaluable bodies the linear scan always succeeds, so there the index changes nothing at all. */
  lemma {:induction false} EvaluableScanSucceeds(rules: seq<Rule>, n: nat, fs: FeatureSet, addr: Address)
    requires n <= |rules|
    requires forall rule | rule in rules :: Evaluable(rule.body)
    ensures LinearScan(rules, n, fs, addr).Ok?
  {
    if n > 0 {
      EvaluableScanSucceeds(rules, n - 1, fs, addr);
      var st := LinearScan(rules, n - 1, fs, addr).value;
      BooleanMeansHolds(rules[n - 1].body, st.features.locs);
      EvaluableSucceeds(rules[n - 1].body, st.features, false);
    }
  }
}
