/**
 The names that extraction makes up are fresh: a rule's counter never yields a name twice, and the names of different
 rules do not meet unless a name was written like one that is made up.
 */
module SyntheticNames {
  import opened Rules
  import opened RuleGraph
  import opened Extraction
  import opened ExtractionSemantics
  import opened ExtractedBodies
  import opened MatchingRules

  // ---- numerals ----

  lemma {:induction false} DecimalHasNoSlash(n: nat)
    ensures Decimal(n) != [] && '/' !in Decimal(n)
  {
    if n >= 10 {
      DecimalHasNoSlash(n / 10);
    }
  }

  lemma DigitIsInjective(c: nat, d: nat)
    requires c < 10 && d < 10 && Digit(c) == Digit(d)
    ensures c == d
  {
  }

  lemma {:induction false} DecimalIsInjective(m: nat, n: nat)
    requires Decimal(m) == Decimal(n)
    ensures m == n
  {
    var a, b := Decimal(m), Decimal(n);
    DigitIsInjective(m % 10, n % 10) by {
      assert a[|a| - 1] == Digit(m % 10) && b[|b| - 1] == Digit(n % 10);
    }
    if m >= 10 && n >= 10 {
      assert a[..|a| - 1] == Decimal(m / 10) && b[..|b| - 1] == Decimal(n / 10);
      DecimalIsInjective(m / 10, n / 10);
    } else if m >= 10 {
      DecimalHasNoSlash(m / 10);
    } else if n >= 10 {
      DecimalHasNoSlash(n / 10);
    }
  }

  /** The number that a numeral spells in base ten. */
  function ValueOf(numeral: string): int {
    if numeral == "" then 0
    else 10 * ValueOf(numeral[..|numeral| - 1]) + (numeral[|numeral| - 1] as int - '0' as int)
  }

  /** A number's numeral spells it, in digits and without leading zeros. */
  lemma {:induction false} DecimalSpells(n: nat)
    ensures ValueOf(Decimal(n)) == n && forall c | c in Decimal(n) :: '0' <= c <= '9'
    ensures Decimal(n) != [] && (n > 0 ==> Decimal(n)[0] != '0')
  {
    DigitSpells(n % 10);
    if n >= 10 {
      DecimalSpells(n / 10);
      assert Decimal(n)[..|Decimal(n)| - 1] == Decimal(n / 10);
    } else {
      assert Decimal(n)[..0] == "";
    }
  }

  lemma DigitSpells(d: nat)
    requires d < 10
    ensures Digit(d) as int == '0' as int + d
  {
  }

  /** A made-up name is the rule's, a slash, and the number. */
  lemma SubscopeNameSpells(rule: string, n: nat) returns (numeral: string)
    ensures SubscopeName(rule, n) == rule + "/" + numeral && ValueOf(numeral) == n
    ensures numeral != "" && (forall c | c in numeral :: '0' <= c <= '9') && (n > 0 ==> numeral[0] != '0')
  {
    numeral := Decimal(n);
    DecimalSpells(n);
  }

  /** A made-up name tells the rule it was lifted from, and the number. */
  lemma SubscopeNameIsInjective(a: string, m: nat, b: string, n: nat)
    requires SubscopeName(a, m) == SubscopeName(b, n)
    ensures a == b && m == n
  {
    var s, d, e := SubscopeName(a, m), Decimal(m), Decimal(n);
    DecimalHasNoSlash(m);
    DecimalHasNoSlash(n);
    assert s[|a|] == '/' && s[|a| + 1..] == d;
    assert s[|b|] == '/' && s[|b| + 1..] == e;
    assert s[..|a|] == a && s[..|b|] == b;
    DecimalIsInjective(m, n);
  }

  // ---- names made up from names ----

  /** `name` is `base`, or was made up for a subscope of a rule so named, or of one lifted out of that. */
  ghost predicate Derives(base: string, name: string)
    decreases |name|
  {
    name == base || exists parent, n :: DerivesBy(base, name, parent, n)
  }

  ghost predicate DerivesBy(base: string, name: string, parent: string, n: nat)
    decreases |name|, 0
  {
    name == SubscopeName(parent, n) && |parent| < |name| && Derives(base, parent)
  }

  ghost predicate MadeUpFrom(base: string, name: string) {
    name != base && Derives(base, name)
  }

  lemma SubscopeDerives(base: string, parent: string, n: nat)
    requires Derives(base, parent)
    ensures Derives(base, SubscopeName(parent, n))
  {
    assert DerivesBy(base, SubscopeName(parent, n), parent, n);
  }

  lemma {:induction false} DerivedIsLonger(base: string, name: string)
    requires Derives(base, name)
    ensures |base| <= |name| && (name != base ==> |base| < |name|)
    decreases |name|
  {
    if name != base {
      var parent, n :| DerivesBy(base, name, parent, n);
      DerivedIsLonger(base, parent);
    }
  }

  lemma {:induction false} DerivesIsTransitive(a: string, b: string, c: string)
    requires Derives(a, b) && Derives(b, c)
    ensures Derives(a, c)
    decreases |c|
  {
    if c != b {
      var parent, n :| DerivesBy(b, c, parent, n);
      DerivesIsTransitive(a, b, parent);
      SubscopeDerives(a, parent, n);
    }
  }

  /** What a made-up name derives from is the name itself, or what its rule's name derives from. */
  lemma DerivesOneStep(base: string, parent: string, n: nat)
    requires Derives(base, SubscopeName(parent, n))
    ensures base == SubscopeName(parent, n) || Derives(base, parent)
  {
    if base != SubscopeName(parent, n) {
      var other, m :| DerivesBy(base, SubscopeName(parent, n), other, m);
      SubscopeNameIsInjective(parent, n, other, m);
    }
  }

  // ---- one rule's counter ----

  /** The lifted subscopes are named after the rule, and numbered on from `k`. */
  ghost predicate NumberedFrom(lifted: seq<Lifted>, rule: string, k: nat) {
    forall i | 0 <= i < |lifted| :: lifted[i].name == SubscopeName(rule, k + 1 + i)
  }

  lemma {:induction false} LiftedAreNumbered(node: Node, rule: string, k: nat)
    ensures NumberedFrom(Lift(node, rule, k), rule, k)
    decreases node
  {
    match node.stmt
    case And(children) => LiftedListIsNumbered(children, rule, k);
    case Or(children) => LiftedListIsNumbered(children, rule, k);
    case SomeOf(_, children) => LiftedListIsNumbered(children, rule, k);
    case Not(child) => LiftedAreNumbered(child, rule, k);
    case Subscope(_, _) =>
    case Range(_, _, _) =>
    case Leaf(_) =>
  }

  lemma {:induction false} LiftedListIsNumbered(children: seq<Node>, rule: string, k: nat)
    ensures NumberedFrom(LiftList(children, rule, k), rule, k)
    decreases children
  {
    if children != [] {
      var first := Lift(children[0], rule, k);
      LiftedAreNumbered(children[0], rule, k);
      LiftedListIsNumbered(children[1..], rule, k + |first|);
      var rest := LiftList(children[1..], rule, k + |first|);
      var lifted := first + rest;
      forall i | 0 <= i < |lifted| ensures lifted[i].name == SubscopeName(rule, k + 1 + i) {
        if i >= |first| {
          assert rest[i - |first|].name == SubscopeName(rule, k + |first| + 1 + (i - |first|));
        }
      }
    }
  }

  // ---- all the names ----

  /** No name derives from the name of another rule on the stack. */
  ghost predicate NamesStandApart(stack: seq<Rule>) {
    forall i, j | 0 <= i < |stack| && 0 <= j < |stack| && Derives(stack[i].name, stack[j].name) :: i == j
  }

  lemma RootIsNumbered(rule: Rule)
    ensures NumberedFrom(LiftRoot(rule.body, rule.name), rule.name, 0)
  {
    LiftedAreNumbered(if rule.body.stmt.Subscope? then rule.body.stmt.body else rule.body, rule.name, 0);
  }

  lemma NumberedStandApart(rule: string, m: nat, n: nat)
    requires Derives(SubscopeName(rule, m), SubscopeName(rule, n))
    ensures m == n
  {
    DerivesOneStep(SubscopeName(rule, m), rule, n);
    if Derives(SubscopeName(rule, m), rule) {
      DerivedIsLonger(SubscopeName(rule, m), rule);
    } else {
      SubscopeNameIsInjective(rule, m, rule, n);
    }
  }

  /** Names that stand apart still do when a rule is replaced by what was lifted out of it. */
  lemma PoppedStandApart(stack: seq<Rule>)
    requires stack != [] && NamesStandApart(stack)
    ensures NamesStandApart(Popped(stack))
  {
    var init, last, popped := stack[..|stack| - 1], stack[|stack| - 1], Popped(stack);
    var lifted := LiftRoot(last.body, last.name);
    RootIsNumbered(last);
    forall j | 0 <= j < |init|
      ensures popped[j] == stack[j] && !Derives(stack[j].name, last.name) && !Derives(last.name, stack[j].name)
    {
    }
    forall i, j | 0 <= i < |popped| && 0 <= j < |popped| && Derives(popped[i].name, popped[j].name) ensures i == j {
      if i < |init| && j < |init| {
      } else if i < |init| {
        assert popped[j].name == SubscopeName(last.name, 1 + (j - |init|));
        DerivesOneStep(popped[i].name, last.name, 1 + (j - |init|));
        SubscopeDerives(last.name, last.name, 1 + (j - |init|));
      } else if j < |init| {
        assert popped[i].name == SubscopeName(last.name, 1 + (i - |init|));
        SubscopeDerives(last.name, last.name, 1 + (i - |init|));
        DerivesIsTransitive(last.name, popped[i].name, popped[j].name);
      } else {
        assert popped[i].name == SubscopeName(last.name, 1 + (i - |init|));
        assert popped[j].name == SubscopeName(last.name, 1 + (j - |init|));
        NumberedStandApart(last.name, 1 + (i - |init|), 1 + (j - |init|));
      }
    }
  }

  /**
   Every expanded rule is named after a rule on the stack, and unless it is finished from one its name was made up.
   */
  lemma {:induction false} ExpandedDerive(stack: seq<Rule>, s: Rule)
    requires s in Expand(stack)
    ensures exists rule | rule in stack ::
              Derives(rule.name, s.name) && (MadeUpFrom(rule.name, s.name) || s == Finished(rule))
    decreases Pending(stack)
  {
    ExpandStep(stack);
    var last, popped := stack[|stack| - 1], Popped(stack);
    if s == Finished(last) {
      assert last in stack && Derives(last.name, s.name);
    } else {
      ExpandedDerive(popped, s);
      var rule :| rule in popped && Derives(rule.name, s.name)
          && (MadeUpFrom(rule.name, s.name) || s == Finished(rule));
      if rule in stack[..|stack| - 1] {
        assert rule in stack;
      } else {
        var l := PoppedRule(stack, rule);
        LiftedIsMadeUp(last, l);
        DerivesIsTransitive(last.name, l.name, s.name);
        DerivedIsLonger(l.name, s.name);
        assert last in stack;
      }
    }
  }

  lemma LiftedIsMadeUp(rule: Rule, l: Lifted)
    requires l in LiftRoot(rule.body, rule.name)
    ensures MadeUpFrom(rule.name, l.name) && |rule.name| < |l.name|
  {
    RootIsNumbered(rule);
    var lifted := LiftRoot(rule.body, rule.name);
    var i :| 0 <= i < |lifted| && lifted[i] == l;
    SubscopeDerives(rule.name, rule.name, 1 + i);
  }

  /** When names stand apart, no two expanded rules share a name. */
  lemma {:induction false} ExpandedAreUnique(stack: seq<Rule>)
    requires NamesStandApart(stack)
    ensures UniqueNames(Expand(stack))
    decreases Pending(stack)
  {
    if stack != [] {
      ExpandStep(stack);
      PoppedStandApart(stack);
      ExpandedAreUnique(Popped(stack));
      forall s | s in Expand(Popped(stack)) ensures s.name != stack[|stack| - 1].name {
        NotTheLastName(stack, s);
      }
    }
  }

  lemma NotTheLastName(stack: seq<Rule>, s: Rule)
    requires stack != [] && NamesStandApart(stack) && s in Expand(Popped(stack))
    ensures s.name != stack[|stack| - 1].name
  {
    var last, popped := stack[|stack| - 1], Popped(stack);
    ExpandedDerive(popped, s);
    var rule :| rule in popped && Derives(rule.name, s.name);
    if rule in stack[..|stack| - 1] {
      var i :| 0 <= i < |stack| - 1 && stack[i] == rule;
      assert !Derives(stack[i].name, last.name);
    } else {
      var l := PoppedRule(stack, rule);
      LiftedIsMadeUp(last, l);
      DerivedIsLonger(l.name, s.name);
    }
  }

  /**
   What a caller can check of the rules as parsed: none is marked as synthetic, and no name that a rule is published
   under is written as if it had been made up from a rule's name.
   */
  ghost predicate NamesAreOriginal(rules: seq<Rule>) {
    && (forall rule | rule in rules :: !rule.IsSubscopeRule())
    && forall base, rule | base in rules && rule in rules :: LooksOriginal(base.name, rule)
  }

  ghost predicate LooksOriginal(base: string, rule: Rule) {
    forall n | n in PublishedNames(rule) :: !MadeUpFrom(base, n)
  }

  /** In an accepted rule set, a reference is to a name that some rule is published under. */
  lemma ReferenceIsPublished(rules: seq<Rule>, rule: Rule, n: string) returns (publisher: Rule)
    requires Acceptable(rules) && rule in rules && n in References(rule.body)
    ensures publisher in rules && n in PublishedNames(publisher)
  {
    var namespaces := NamespaceIndex(rules);
    RegisterMeans(rules, n);
    if IsIndexed(rules, n) {
      publisher :| publisher in rules && n in RulePrefixes(publisher);
      IndexedPrefixes(publisher.namespace.value, n);
    } else {
      var i :| 0 <= i < |rules| && rules[i] == rule;
      GraphEdges(rules, namespaces, i);
      assert n in Register(n, namespaces);
      assert Edge(GraphOf(rules, namespaces), rule.name, n);
      GraphNodes(rules, namespaces);
      publisher :| publisher in rules && publisher.name == n;
    }
  }

  lemma OriginalsStandApart(rules: seq<Rule>)
    requires UniqueNames(rules) && NamesAreOriginal(rules)
    ensures NamesStandApart(rules)
  {
    forall i, j | 0 <= i < |rules| && 0 <= j < |rules| && Derives(rules[i].name, rules[j].name) ensures i == j {
      assert rules[i] in rules && rules[j] in rules && LooksOriginal(rules[i].name, rules[j]);
      assert rules[j].name in PublishedNames(rules[j]);
    }
  }

  /** For an accepted rule set this makes the synthetic names fresh. */
  lemma OriginalNamesGiveFreshOnes(rules: seq<Rule>)
    requires Acceptable(rules) && NamesAreOriginal(rules)
    ensures FreshNames(rules)
  {
    OriginalsStandApart(rules);
    ExpandedAreUnique(rules);
    forall s, rule | s in Expand(rules) && s.IsSubscopeRule() && rule in rules
      ensures s.name !in PublishedNames(rule) && s.name !in References(rule.body)
    {
      ExpandedDerive(rules, s);
      var base :| base in rules && Derives(base.name, s.name) && (MadeUpFrom(base.name, s.name) || s == Finished(base));
      assert LooksOriginal(base.name, rule);
      forall publisher | publisher in rules ensures s.name !in PublishedNames(publisher) {
        assert LooksOriginal(base.name, publisher);
      }
      if s.name in References(rule.body) {
        var publisher := ReferenceIsPublished(rules, rule, s.name);
      }
    }
  }
}
