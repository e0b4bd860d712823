/**
 What the evidence of a match must contain, told from the body and the features alone: one result for each statement and
 leaf, in place, with exactly the locations and captures of what was accepted. Full evaluation yields this and nothing
 else.
 */
module Explanations {
  import opened Base
  import opened Features
  import opened FeatureSets
  import opened Rules
  import opened Engine

  // ---- which features a leaf accepts ----

  /** The text has `needle` in it. */
  ghost predicate HasPart(text: string, needle: string) {
    exists before, after :: IsSplit(text, before, needle, after)
  }

  predicate IsSplit(text: string, before: string, needle: string, after: string) {
    text == before + needle + after
  }

  /** A leaf that asks for `query` is met by the extracted feature `k`. */
  ghost predicate Accepts(query: Feature, k: Feature) {
    match query
    case String(Substring(needle)) => k.String? && HasPart(k.str.value, needle)
    case String(Regex(pattern)) => k.String? && REGEX_IS_MATCH(pattern, k.str.value)
    case Bytes(prefix) => k.Bytes? && |prefix| <= |k.bytes| && forall i | 0 <= i < |prefix| :: prefix[i] == k.bytes[i]
    case Os(name) => k.Os? && (name == k.name || name == "any" || k.name == "any")
    case _ => k == query
  }

  lemma ContainsMeans(text: string, needle: string)
    ensures Contains(text, needle) <==> HasPart(text, needle)
  {
    if Contains(text, needle) {
      var i :| 0 <= i <= |text| - |needle| && OccursAt(text, needle, i);
      assert IsSplit(text, text[..i], needle, text[i + |needle|..]);
    }
    if HasPart(text, needle) {
      var before, after :| IsSplit(text, before, needle, after);
      assert OccursAt(text, needle, |before|);
    }
  }

  /** The tests that the evaluator runs on the keys of the feature set decide acceptance. */
  lemma HitsAccept(query: Feature, k: Feature)
    ensures query.String? && !query.str.Plain? ==> (StringHit(query.str, k) <==> Accepts(query, k))
    ensures query.Bytes? ==> (BytesHit(query.bytes, k) <==> Accepts(query, k))
    ensures query.Os? ==> (OsHit(query.name, k) <==> Accepts(query, k))
  {
    if query.String? && k.String? {
      ContainsMeans(k.str.value, query.str.value);
    }
  }

  /** A leaf holds exactly when some extracted feature is accepted. */
  lemma LeafHoldsIff(f: Feature, locs: map<Feature, set<Address>>)
    ensures LeafBoolean(f, locs) <==> exists k | k in locs.Keys :: Accepts(f, k)
  {
    forall k ensures f.String? && !f.str.Plain? ==> (StringHit(f.str, k) <==> Accepts(f, k))
      ensures f.Bytes? ==> (BytesHit(f.bytes, k) <==> Accepts(f, k))
      ensures f.Os? ==> (OsHit(f.name, k) <==> Accepts(f, k))
    {
      HitsAccept(f, k);
    }
    if f in locs && !f.Bytes? && !f.Os? && (f.String? ==> f.str.Plain?) {
      assert Accepts(f, f);
    }
  }

  // ---- what explains a body ----

  /** All the accepted features together, and for each accepted text where it was found. */
  ghost predicate ShowsAllHits(f: Feature, locs: map<Feature, set<Address>>, m: MatchResult) {
    && (m.success <==> exists k | k in locs.Keys :: Accepts(f, k))
    && (forall a :: a in m.locations <==> exists k | k in locs.Keys :: Accepts(f, k) && a in locs[k])
    && (forall v :: v in m.captures <==> exists k | k in locs.Keys :: IsCaptured(f, k, v))
    && forall v, a | v in m.captures ::
         a in m.captures[v] <==> exists k | k in locs.Keys :: IsCaptured(f, k, v) && a in locs[k]
  }

  /** The feature is accepted, and `v` is its text. */
  ghost predicate IsCaptured(f: Feature, k: Feature, v: string) {
    Accepts(f, k) && k.String? && k.str.value == v
  }

  /** The accepted feature that comes first is key `i`. */
  ghost predicate IsFirstAccepted(f: Feature, keys: seq<Feature>, i: nat) {
    i < |keys| && Accepts(f, keys[i]) && forall j | 0 <= j < i :: !Accepts(f, keys[j])
  }

  /** The locations of the accepted feature that comes first, and none if there is no such feature. */
  ghost predicate ShowsFirstHit(f: Feature, fs: FeatureSet, m: MatchResult) {
    && m.captures == map[]
    && (m.success <==> exists i: nat :: IsFirstAccepted(f, fs.keys, i))
    && (forall i: nat | IsFirstAccepted(f, fs.keys, i) :: m.locations == Locations(fs.locs, fs.keys[i]))
    && (!m.success ==> m.locations == {})
  }

  /** How a leaf or a count is explained. */
  ghost predicate LeafExplains(f: Feature, fs: FeatureSet, m: MatchResult) {
    if f.String? && !f.str.Plain? then ShowsAllHits(f, fs.locs, m)
    else if f.Bytes? || f.Os? then ShowsFirstHit(f, fs, m)
    else
      && m.captures == map[]
      && (m.success <==> f in fs.locs)
      && m.locations == (if f in fs.locs then fs.locs[f] else {})
  }

  function Successes(ms: seq<MatchResult>): set<nat> {
    set i: nat | i < |ms| && ms[i].success
  }

  /** `ms` explain `nodes` one by one, in order. */
  ghost predicate EachExplains(nodes: seq<Node>, fs: FeatureSet, ms: seq<MatchResult>)
    decreases nodes, 0
  {
    |ms| == |nodes| && forall i | 0 <= i < |nodes| :: Explains(nodes[i], fs, ms[i])
  }

  predicate IsStatement(m: MatchResult, node: MatchedNode) {
    m.node == node && m.locations == {} && m.captures == map[]
  }

  /** `m` is the evidence for or against `node` on the features `fs`. */
  ghost predicate Explains(node: Node, fs: FeatureSet, m: MatchResult)
    decreases node, 1
  {
    && m.description == node.description
    && match node.stmt
       case And(children) =>
         && IsStatement(m, AndNode) && EachExplains(children, fs, m.children)
         && (m.success <==> forall i | 0 <= i < |m.children| :: m.children[i].success)
       case Or(children) =>
         && IsStatement(m, OrNode) && EachExplains(children, fs, m.children)
         && (m.success <==> exists i | 0 <= i < |m.children| :: m.children[i].success)
       case SomeOf(count, children) =>
         && IsStatement(m, SomeNode(count)) && EachExplains(children, fs, m.children)
         && (m.success <==> |Successes(m.children)| >= count)
       case Not(child) =>
         && IsStatement(m, NotNode) && |m.children| == 1 && Explains(child, fs, m.children[0])
         && (m.success <==> !m.children[0].success)
       case Range(f, min, max) =>
         && m.node == RangeNode(f, min, max) && m.children == [] && m.captures == map[]
         && m.locations == (if f in fs.locs then fs.locs[f] else {})
         && (m.success <==> min <= |m.locations| && (max.None? || |m.locations| <= max.value))
       case Leaf(f) => m.node == LeafNode(f) && m.children == [] && !f.Com? && LeafExplains(f, fs, m)
       case Subscope(_, _) => false
  }

  // ---- full evaluation explains ----

  lemma {:induction false} CountAppend(ms: seq<MatchResult>, m: MatchResult)
    ensures CountSuccesses(ms + [m]) == CountSuccesses(ms) + (if m.success then 1 else 0)
  {
    if ms != [] {
      CountAppend(ms[1..], m);
      assert (ms + [m])[1..] == ms[1..] + [m];
    }
  }

  lemma {:induction false} CountIsSuccesses(ms: seq<MatchResult>)
    ensures CountSuccesses(ms) == |Successes(ms)|
  {
    if ms != [] {
      var init, last := ms[..|ms| - 1], ms[|ms| - 1];
      CountIsSuccesses(init);
      CountAppend(init, last);
      assert ms == init + [last];
      assert Successes(ms) == Successes(init) + (if last.success then {|init|} else {});
    }
  }

  lemma FirstHitIsFirst(f: Feature, keys: seq<Feature>, hit: Feature -> bool)
    requires forall k :: hit(k) <==> Accepts(f, k)
    ensures FirstHit(keys, hit).Some? <==> exists i: nat :: IsFirstAccepted(f, keys, i)
    ensures forall i: nat | IsFirstAccepted(f, keys, i) :: FirstHit(keys, hit) == Some(keys[i])
  {
    if FirstHit(keys, hit).Some? {
      var i := FirstAcceptedExists(f, keys, FirstHit(keys, hit).value);
    }
    forall i: nat | IsFirstAccepted(f, keys, i) ensures FirstHit(keys, hit) == Some(keys[i]) {
      assert forall k | k in keys[..i] :: !hit(k);
      FirstHitAt(keys, i, hit);
    }
  }

  lemma FirstAcceptedExists(f: Feature, keys: seq<Feature>, k: Feature) returns (i: nat)
    requires k in keys && Accepts(f, k)
    ensures IsFirstAccepted(f, keys, i)
  {
    i := 0;
    while !Accepts(f, keys[i])
      invariant i < |keys| && forall j | 0 <= j < i :: !Accepts(f, keys[j])
      invariant exists j | i <= j < |keys| :: keys[j] == k
      decreases |keys| - i
    {
      i := i + 1;
    }
  }

  lemma FirstHitExplains(f: Feature, fs: FeatureSet, hit: Feature -> bool, description: Option<string>)
    requires forall k :: hit(k) <==> Accepts(f, k)
    ensures ShowsFirstHit(f, fs, FirstHitResult(f, fs, hit, description))
  {
    FirstHitIsFirst(f, fs.keys, hit);
  }

  lemma StringScanExplains(f: Feature, fs: FeatureSet, description: Option<string>)
    requires f.String? && !f.str.Plain?
    ensures ShowsAllHits(f, fs.locs, StringScanResult(f, fs, false, description))
  {
    forall k ensures StringHit(f.str, k) <==> Accepts(f, k) {
      HitsAccept(f, k);
    }
  }

  lemma EvaluatedLeafExplains(f: Feature, fs: FeatureSet, description: Option<string>)
    requires !f.Com?
    ensures EvaluateLeaf(f, fs, false, description).Ok?
    ensures var m := EvaluateLeaf(f, fs, false, description).value;
            && m.node == LeafNode(f) && m.description == description && m.children == [] && LeafExplains(f, fs, m)
  {
    KeySetMeans(fs.keys);
    if f.String? && !f.str.Plain? {
      StringScanExplains(f, fs, description);
    } else if f.Bytes? {
      forall k ensures BytesHit(f.bytes, k) <==> Accepts(f, k) {
        HitsAccept(f, k);
      }
      FirstHitExplains(f, fs, k => BytesHit(f.bytes, k), description);
    } else if f.Os? {
      forall k ensures OsHit(f.name, k) <==> Accepts(f, k) {
        HitsAccept(f, k);
      }
      FirstHitExplains(f, fs, k => OsHit(f.name, k), description);
    }
  }

  /** The result of every full evaluation explains the body. */
  lemma {:induction false} EvaluatedExplains(node: Node, fs: FeatureSet)
    requires Evaluate(node, fs, false).Ok?
    ensures Explains(node, fs, Evaluate(node, fs, false).value)
    decreases node, 1
  {
    match node.stmt
    case And(children) => EvaluatedEachExplains(children, fs);
    case Or(children) => EvaluatedEachExplains(children, fs);
    case SomeOf(_, children) =>
      EvaluatedEachExplains(children, fs);
      CountIsSuccesses(EvaluateChildren(children, fs, false, Never).value);
    case Not(child) => EvaluatedExplains(child, fs);
    case Range(f, _, _) => KeySetMeans(fs.keys);
    case Leaf(f) => EvaluatedLeafExplains(f, fs, node.description);
  }

  lemma {:induction false} EvaluatedEachExplains(children: seq<Node>, fs: FeatureSet)
    requires EvaluateChildren(children, fs, false, Never).Ok?
    ensures EachExplains(children, fs, EvaluateChildren(children, fs, false, Never).value)
    decreases children, 0
  {
    if children != [] {
      EvaluatedExplains(children[0], fs);
      EvaluatedEachExplains(children[1..], fs);
    }
  }

  // ---- nothing else explains ----

  /** A body has only one explanation. */
  lemma {:induction false} ExplanationIsUnique(node: Node, fs: FeatureSet, m: MatchResult, m': MatchResult)
    requires Explains(node, fs, m) && Explains(node, fs, m')
    ensures m == m'
    decreases node
  {
    match node.stmt
    case And(children) => EachIsUnique(children, fs, m.children, m'.children);
    case Or(children) => EachIsUnique(children, fs, m.children, m'.children);
    case SomeOf(_, children) => EachIsUnique(children, fs, m.children, m'.children);
    case Not(child) => ExplanationIsUnique(child, fs, m.children[0], m'.children[0]);
    case Range(_, _, _) =>
    case Leaf(f) => LeafIsUnique(f, fs, m, m');
  }

  lemma {:induction false} EachIsUnique(nodes: seq<Node>, fs: FeatureSet, ms: seq<MatchResult>, ms': seq<MatchResult>)
    requires EachExplains(nodes, fs, ms) && EachExplains(nodes, fs, ms')
    ensures ms == ms'
    decreases nodes
  {
    forall i | 0 <= i < |nodes| ensures ms[i] == ms'[i] {
      ExplanationIsUnique(nodes[i], fs, ms[i], ms'[i]);
    }
  }

  lemma LeafIsUnique(f: Feature, fs: FeatureSet, m: MatchResult, m': MatchResult)
    requires LeafExplains(f, fs, m) && LeafExplains(f, fs, m')
    ensures m.success == m'.success && m.locations == m'.locations && m.captures == m'.captures
  {
    if f.String? && !f.str.Plain? {
      assert m.captures.Keys == m'.captures.Keys;
      forall v | v in m.captures ensures m.captures[v] == m'.captures[v] {
      }
    }
  }
}
