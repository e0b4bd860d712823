/**
 Suppression loses no evidence: over the whole of a thread, each run of calls at which a span rule matches is recorded
 where it begins, and the document builder finds, for a reference at any call of the run, a match recorded within the
 run.
 */
module SpanEvidence {
  import opened Base
  import opened Features
  import opened FeatureSets
  import opened Rules
  import opened RuleGraph
  import opened Engine
  import opened StaticScopes
  import opened UnitContents
  import opened MatchingRules
  import opened MatchingRuleSets
  import opened Evidence
  import opened SpanMatcher

  predicate MatchesAt(spans: seq<Span>, t: nat, name: string)
    requires t < |spans|
  {
    name in spans[t].found
  }

  /** The rule is recorded at call `t`. */
  predicate IsRecordedAt(rs: MatchingRuleSet, spans: seq<Span>, t: nat, name: string)
    requires t < |spans|
  {
    name in Fresh(rs, NamesBefore(spans, t), spans[t].found)
  }

  /** A run begins at `t`: the rule matches there and not at the call before. */
  predicate RunBegins(spans: seq<Span>, t: nat, name: string)
    requires t < |spans|
  {
    MatchesAt(spans, t, name) && (t > 0 ==> !MatchesAt(spans, t - 1, name))
  }

  /** At call `t` a rule that depends on this one matches for the first time in its run. */
  ghost predicate DependentBegins(rs: MatchingRuleSet, spans: seq<Span>, t: nat, name: string)
    requires t < |spans|
  {
    exists n :: RunBegins(spans, t, n) && name in RuleDependencies(rs, n)
  }

  /** A match is recorded where a run begins, and inside a run exactly where a dependent rule begins one of its own. */
  lemma RecordedIff(rs: MatchingRuleSet, spans: seq<Span>, t: nat, name: string)
    requires t < |spans|
    ensures IsRecordedAt(rs, spans, t, name)
            <==> MatchesAt(spans, t, name) && (RunBegins(spans, t, name) || DependentBegins(rs, spans, t, name))
  {
    var before := NamesBefore(spans, t);
    forall n ensures RunBegins(spans, t, n) <==> n in spans[t].found && n !in before {
    }
    if MatchesAt(spans, t, name) && name in before {
      if n :| n in spans[t].found.Keys && n !in before && name in RuleDependencies(rs, n) {
        assert RunBegins(spans, t, n);
      }
      if n :| RunBegins(spans, t, n) && name in RuleDependencies(rs, n) {
        assert n in spans[t].found.Keys && n !in before;
      }
    }
  }

  /** A rule of the set whose body calls for this one begins a run. */
  ghost predicate CallerBegins(rs: MatchingRuleSet, spans: seq<Span>, t: nat, name: string)
    requires t < |spans|
  {
    exists rule | rule in rs.rules :: RunBegins(spans, t, rule.name) && CallsFor(rs.rules, rule.body, name)
  }

  /** In the rules' own terms: inside a run a match is recorded exactly where a rule that calls for it begins a run. */
  lemma RecordedWhenCalledFor(rs: MatchingRuleSet, spans: seq<Span>, t: nat, name: string)
    requires t < |spans| && UniqueNames(rs.rules) && rs.namespaces == NamespaceIndex(rs.rules)
    ensures IsRecordedAt(rs, spans, t, name)
            <==> MatchesAt(spans, t, name) && (RunBegins(spans, t, name) || CallerBegins(rs, spans, t, name))
  {
    RecordedIff(rs, spans, t, name);
    forall rule | rule in rs.rules
      ensures name in RuleDependencies(rs, rule.name) <==> CallsFor(rs.rules, rule.body, name)
    {
      assert Named(rs.rules, rule.name).Some? && Named(rs.rules, rule.name).value in rs.rules;
      DependsIff(rs.rules, rule.body, name);
    }
    if DependentBegins(rs, spans, t, name) {
      var n :| RunBegins(spans, t, n) && name in RuleDependencies(rs, n);
      assert Named(rs.rules, n).value in rs.rules;
    }
  }

  /** `e` is a match of the rule that was found, and recorded, at call `t`. */
  ghost predicate RecordedFrom(rs: MatchingRuleSet, spans: seq<Span>, t: nat, name: string, e: (Address, MatchResult)) {
    t < |spans| && IsRecordedAt(rs, spans, t, name) && e in spans[t].found[name]
  }

  lemma EarlierIsRecordedAlike(rs: MatchingRuleSet, spans: seq<Span>, span: Span, t: nat, name: string,
                               e: (Address, MatchResult))
    requires t < |spans|
    ensures RecordedFrom(rs, spans + [span], t, name, e) <==> RecordedFrom(rs, spans, t, name, e)
  {
    var longer := spans + [span];
    assert longer[t] == spans[t];
    assert NamesBefore(longer, t) == NamesBefore(spans, t);
  }

  lemma LastIsRecorded(rs: MatchingRuleSet, spans: seq<Span>, span: Span, name: string, e: (Address, MatchResult))
    ensures RecordedFrom(rs, spans + [span], |spans|, name, e)
            <==> e in Recorded(Fresh(rs, NamesBefore(spans, |spans|), span.found), name)
    ensures Recorded(RecordedMatches(rs, spans + [span]), name)
            == Recorded(RecordedMatches(rs, spans), name)
            + Recorded(Fresh(rs, NamesBefore(spans, |spans|), span.found), name)
  {
    assert (spans + [span])[|spans|] == span;
    assert NamesBefore(spans + [span], |spans|) == NamesBefore(spans, |spans|);
    NextIsRecorded(rs, spans, span);
  }

  /** The recorded matches of a rule are those found at the calls where it is recorded. */
  lemma {:induction false} RecordsComeFromCalls(rs: MatchingRuleSet, spans: seq<Span>, name: string,
                                                e: (Address, MatchResult))
    ensures e in Recorded(RecordedMatches(rs, spans), name) <==> exists t: nat :: RecordedFrom(rs, spans, t, name, e)
  {
    if spans != [] {
      var init, last := spans[..|spans| - 1], spans[|spans| - 1];
      assert spans == init + [last];
      RecordsComeFromCalls(rs, init, name, e);
      LastIsRecorded(rs, init, last, name, e);
      RecordedEarlierOrLast(rs, init, last, name, e);
    }
  }

  lemma RecordedEarlierOrLast(rs: MatchingRuleSet, init: seq<Span>, last: Span, name: string, e: (Address, MatchResult))
    ensures (exists t: nat :: RecordedFrom(rs, init + [last], t, name, e))
            <==> RecordedFrom(rs, init + [last], |init|, name, e)
                 || exists t: nat :: RecordedFrom(rs, init, t, name, e)
  {
    forall t: nat | t < |init|
      ensures RecordedFrom(rs, init + [last], t, name, e) <==> RecordedFrom(rs, init, t, name, e)
    {
      EarlierIsRecordedAlike(rs, init, last, t, name, e);
    }
    if t: nat :| RecordedFrom(rs, init + [last], t, name, e) {
      assert t < |init| || t == |init|;
    }
    if t: nat :| RecordedFrom(rs, init, t, name, e) {
      assert RecordedFrom(rs, init + [last], t, name, e);
    }
  }

  /** The calls of one thread in order, each with the matches that its scan recorded there. */
  ghost predicate IsThread(spans: seq<Span>) {
    && (forall i | 0 <= i < |spans| :: spans[i].addr.Call?)
    && (forall i, j | 0 <= i < j < |spans| ::
          SameThread(spans[i].addr, spans[j].addr) && spans[i].addr.id < spans[j].addr.id)
    && forall i, name | 0 <= i < |spans| && name in spans[i].found :: FoundAt(spans[i], name)
  }

  predicate SameThread(a: Address, b: Address)
    requires a.Call? && b.Call?
  {
    a.ppid == b.ppid && a.pid == b.pid && a.tid == b.tid
  }

  /** A matched rule has a match, and all its matches are at this call. */
  predicate FoundAt(span: Span, name: string)
    requires name in span.found
  {
    span.found[name] != [] && forall e | e in span.found[name] :: e.0 == span.addr
  }

  /** The rule matches at every call from `s` to `t`. */
  predicate RunsFrom(spans: seq<Span>, s: nat, t: nat, name: string) {
    s <= t < |spans| && forall k | s <= k <= t :: MatchesAt(spans, k, name)
  }

  /** The call at which the run that includes `t` begins. */
  lemma {:induction false} RunStart(spans: seq<Span>, t: nat, name: string) returns (s: nat)
    requires t < |spans| && MatchesAt(spans, t, name)
    ensures RunsFrom(spans, s, t, name) && RunBegins(spans, s, name)
  {
    if t == 0 || !MatchesAt(spans, t - 1, name) {
      s := t;
    } else {
      s := RunStart(spans, t - 1, name);
    }
  }

  lemma RunStartIsRecorded(rs: MatchingRuleSet, spans: seq<Span>, s: nat, name: string)
    requires IsThread(spans) && s < |spans| && RunBegins(spans, s, name)
    ensures spans[s].addr in RuleMatchIndex(RecordedMatches(rs, spans), name)
  {
    RecordedIff(rs, spans, s, name);
    assert FoundAt(spans[s], name);
    var e := spans[s].found[name][0];
    assert RecordedFrom(rs, spans, s, name, e);
    RecordsComeFromCalls(rs, spans, name, e);
    LastMatchWins(Recorded(RecordedMatches(rs, spans), name), spans[s].addr);
  }

  /** An entry of the index was recorded at the call of that address. */
  lemma IndexedAtCall(rs: MatchingRuleSet, spans: seq<Span>, name: string, a: Address) returns (t: nat)
    requires IsThread(spans) && a in RuleMatchIndex(RecordedMatches(rs, spans), name)
    ensures RecordedFrom(rs, spans, t, name, (a, RuleMatchIndex(RecordedMatches(rs, spans), name)[a]))
    ensures spans[t].addr == a
  {
    var m := RuleMatchIndex(RecordedMatches(rs, spans), name)[a];
    LastMatchWins(Recorded(RecordedMatches(rs, spans), name), a);
    assert (a, m) in Recorded(RecordedMatches(rs, spans), name);
    RecordsComeFromCalls(rs, spans, name, (a, m));
    t :| RecordedFrom(rs, spans, t, name, (a, m));
    assert FoundAt(spans[t], name);
  }

  /** What the builder splices in for a reference at call `a`: the match there, or the most recent one in the thread. */
  function Lookup(index: MatchIndex, a: Address): Option<MatchResult>
    requires a.Call?
  {
    if a in index then Some(index[a]) else MostRecent(index, a)
  }

  /** Within the thread, `index` lists what `own` lists; it may list more of other threads. */
  ghost predicate ExtendsThread(index: MatchIndex, own: MatchIndex, call: Address)
    requires call.Call?
  {
    forall a: Address | a.Call? && SameThread(a, call) ::
      (a in index <==> a in own) && (a in own ==> index[a] == own[a])
  }

  /** The match `m` was recorded at call `s`, and the rule has matched at every call since, up to `t`. */
  ghost predicate RecordedInRun(rs: MatchingRuleSet, spans: seq<Span>, s: nat, t: nat, name: string, m: MatchResult) {
    RunsFrom(spans, s, t, name) && RecordedFrom(rs, spans, s, name, (spans[s].addr, m))
  }

  /**
   A span rule that matches at call `t` is found there: the builder gets a match that was recorded in the same run, at
   this call or before it. So a reference from recorded span evidence always has something to show, and never evidence
   of an earlier run.
   */
  lemma SpanReferenceIsFound(rs: MatchingRuleSet, spans: seq<Span>, t: nat, name: string, index: MatchIndex)
    requires IsThread(spans) && t < |spans| && MatchesAt(spans, t, name)
    requires ExtendsThread(index, RuleMatchIndex(RecordedMatches(rs, spans), name), spans[t].addr)
    ensures Lookup(index, spans[t].addr).Some?
    ensures exists s: nat :: RecordedInRun(rs, spans, s, t, name, Lookup(index, spans[t].addr).value)
  {
    var call := spans[t].addr;
    var start := RunStart(spans, t, name);
    RunStartIsRecorded(rs, spans, start, name);
    assert start < t ==> SameThread(spans[start].addr, call);
    if call in index {
      var s := IndexedAtCall(rs, spans, name, call);
      SameCall(spans, s, t);
      assert RecordedInRun(rs, spans, s, t, name, index[call]);
    } else {
      EarlierCallIsFound(rs, spans, start, t, name, index);
    }
  }

  /** When nothing was recorded at the call itself, the most recent match is one of the same run. */
  lemma EarlierCallIsFound(rs: MatchingRuleSet, spans: seq<Span>, start: nat, t: nat, name: string, index: MatchIndex)
    requires IsThread(spans) && RunsFrom(spans, start, t, name)
    requires ExtendsThread(index, RuleMatchIndex(RecordedMatches(rs, spans), name), spans[t].addr)
    requires spans[start].addr in RuleMatchIndex(RecordedMatches(rs, spans), name) && spans[t].addr !in index
    ensures MostRecent(index, spans[t].addr).Some?
    ensures exists s: nat :: RecordedInRun(rs, spans, s, t, name, MostRecent(index, spans[t].addr).value)
  {
    var first, call := spans[start].addr, spans[t].addr;
    var own := RuleMatchIndex(RecordedMatches(rs, spans), name);
    assert start != t;
    assert SameThread(first, call) && first.id < call.id;
    var a := LatestCall(index, call, first);
    assert a in own && own[a] == index[a];
    var s := IndexedAtCall(rs, spans, name, a);
    InOrder(spans, start, s);
    InOrder(spans, s, t);
    assert RecordedInRun(rs, spans, s, t, name, index[a]);
  }

  /** The entry that is looked up is that of the latest call so far, which is no earlier than any other. */
  lemma LatestCall(index: MatchIndex, call: Address, other: Address) returns (a: Address)
    requires call.Call? && other.Call? && SameThread(other, call) && other.id <= call.id && other in index
    ensures a in index && a.Call? && SameThread(a, call) && other.id <= a.id <= call.id
    ensures MostRecent(index, call) == Some(index[a])
  {
    var calls, recent := CallsUpTo(index, call), MostRecent(index, call);
    assert other in calls && recent.Some?;
    assert forall b | b in calls :: b in index && b.Call? && SameThread(b, call);
    a :| IsLatest(a, calls) && index[a] == recent.value;
  }

  lemma SameCall(spans: seq<Span>, s: nat, t: nat)
    requires IsThread(spans) && s < |spans| && t < |spans| && spans[s].addr == spans[t].addr
    ensures s == t
  {
  }

  lemma InOrder(spans: seq<Span>, s: nat, t: nat)
    requires IsThread(spans) && s < |spans| && t < |spans| && spans[s].addr.id <= spans[t].addr.id
    ensures s <= t
  {
  }

  // ---- which references recorded span evidence makes ----

  /**
   A reference that a span's scan met, to a rule whose `match` feature the calls themselves do not bring along, is to a
   rule that matched in the same scan, and lies at the call alone.
   */
  lemma SpanReferenceIsOwn(p: Program, current: FeatureSet, addr: Address, name: string)
    requires p.Valid() && MatchedRule(name) !in current.locs
    requires forall rule | rule in p.RulesAt(SpanOfCallsScope) && name in PublishedNames(rule) :: rule.name == name
    requires MatchedRule(name) in ScanAt(p, SpanOfCallsScope, current, addr).features.locs
    ensures name in ScanAt(p, SpanOfCallsScope, current, addr).results
    ensures Locations(ScanAt(p, SpanOfCallsScope, current, addr).features.locs, MatchedRule(name)) == {addr}
  {
    ScanContents(p, SpanOfCallsScope, current, addr, MatchedRule(name));
  }
}
