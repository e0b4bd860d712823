# capa-x: rule matching, evidence and analysis cores

capa-x decides which rules hold where in a program. Rule bodies are trees of statements over features. Before matching,
subscopes are lifted out of the bodies into synthetic rules, children are sorted by cost and rules are ordered by their
dependencies; matching then goes bottom-up over instructions, blocks, functions and the file, or over calls and threads,
through an index of the features that each rule needs. The result document splices the evidence of rules into that of the
rules that refer to them. This project models that pipeline, and four smaller cores, and proves that each fast or
transformed form says what the simple one says.

`dafny verify dfyconfig.toml` checks everything.

## How it is organised

| file | what it holds |
|---|---|
| `Base`, `Sorting`, `AddressOrder` | options and outcomes, a stable sort, the order of addresses |
| `Features`, `FeatureSets`, `Rules` | features, insertion-ordered feature sets (a value and an object updated in place), rules |
| `Engine` | evaluation with evidence, the boolean pass, and `Holds`, a reading of bodies without order or errors |
| `Explanations` | what the evidence of a match must contain, told from the body and the features alone |
| `RuleIndex` | the linear scan of a scope, and the indexed matcher that refines it |
| `RuleGraph` | dependencies, namespaces, ordering with and without cycle detection, closures |
| `Optimizer`, `Extraction` | sorting children by cost; lifting subscopes, as functions and as the mutable walk |
| `StaticScopes`, `UnitContents` | the analysed tree, what the bottom-up drivers compute, and what each unit sees |
| `ScopeSemantics`, `ExtractionSemantics` | `Means`, the meaning of a body over the tree, and the proof that extraction keeps it |
| `ExtractedBodies`, `SyntheticNames` | what extraction leaves of bodies, and the names it makes up |
| `MatchingRules`, `MatchingRuleSets` | building the matching rule set, and that it meets what the drivers rely on |
| `WrittenBodies` | a built body against the body as it was written |
| `RuleMeaning` | the one meaning of an accepted rule set, and that the drivers compute it |
| `Promotion`, `StaticDriver` | the static drivers as loops over mutable maps, in any hash-map order |
| `Evidence`, `StaticEvidence`, `StaticReport` | the document builder, closure of the evidence, and the whole static pipeline |
| `RecordedEvidence`, `DocumentTrees`, `ReportedEvidence` | every recorded match explains its rule; what the document shows of a match, and that it is built |
| `ParallelMap` | the worker pool as a step relation |
| `SpanWindow`, `SpanMatcher`, `SpanEvidence`, `DynamicDriver` | the sliding span of calls, its suppression, and the call and thread drivers |
| `ThreadEvidence` | closure of the evidence that a thread records |
| `ProcessDriver`, `DynamicEvidence`, `DynamicReport` | the process and file drivers, closure of all dynamic evidence, and the whole dynamic pipeline |
| `TagFilter`, `Wire`, `Hex`, `Aarch64`, `Civil`, `CarvePe` | tag filtering, the wire round trip, and the arithmetic and scan cores |

Three conditions recur, and are stated wherever they are needed. `FreshNames`: the names given to lifted subscopes are
new, which `SyntheticNames.OriginalNamesGiveFreshOnes` derives from the rules' own names. `NoNameIsANamespace`: no rule is
named like a namespace prefix. `NoMatchFeatures`: extraction yields no `match` features. `Compiles`, `BuiltFor` and
`Ready` are not assumed of a caller: they are proved of what `NewMatchingRuleSet` builds.

Where the code and its promise differ, the code is kept. An `optional:` without alternatives fails the boolean pass and
passes the evidence pass: `Engine.EmptySomeBreaksTheAssertion` shows the difference, `Engine.PassesAgreeIff` says exactly
when there is none, and `Engine.AssertionHolds` when the matcher's own assertion holds in spite of it. A subscope at the
root of a body is not extracted, and matching such a rule fails: `ExtractedBodies.ExpandedScanFailsIff` says exactly when.
Address materialization resolves the wrong address after a load with writeback: `Aarch64.PostIndexResolvesWrongly` shows
it, `Aarch64.SoundIffNoLiveWriteback` says exactly when it is right. A written feature is not always read back:
`Wire.OperandFiveIsLost` shows one, `Wire.FeatureRoundTripIff` says exactly which are.

## Model

| member | source | states |
|---|---|---|
| StaticReport.Analyze | capa-x/src/result_document/from_capa.rs:316-347 | End to end: on a built rule set the analysis of a file never fails, for any number of jobs; the rules as written have a meaning, and for any verdicts that give each rule the verdict of its body the document shows each rule at exactly the addresses of the units that have one of its scopes and satisfy its body, and no other rules; its entries are the document trees of the recorded matches, in order, and each of those explains its rule's body at a unit |
| DynamicReport.AnalyzeDynamic | capa-x/src/capabilities/dynamic_analysis.rs:278-330 | End to end: on a built rule set a dynamic analysis never fails, and for any verdicts that give each rule, as written, the verdict of its body within every process, the document shows each rule of calls, threads and processes at exactly the addresses of the units where it holds; it shows only written rules, and its entries are the document trees of all recorded matches |
| StaticDriver.CapabilitiesAreMeant | capa-x/src/capabilities/static_analysis.rs:221-287 | What the static driver returns lists each original rule exactly at the addresses of the units where its un-extracted body holds, whatever verdicts that fit the bodies the references are read by |
| ExtractionSemantics.ExtractionPreservesMeaning | capa-x/src/capabilities/ruleset.rs:521-587 | Running the extracted rules through the bottom-up drivers matches an original rule at a unit exactly when the unit has its scope and its un-extracted body holds there, a subscope read as "this unit or an enclosed one of that scope satisfies the body" |
| RuleMeaning.MeaningIsUnique | capa-x/src/capabilities/ruleset.rs:39-75 | An accepted rule set has at most one meaning: any two verdicts that give every rule, as written, the verdict of its body agree everywhere |
| RuleMeaning.DriversSolve | capa-x/src/capabilities/static_analysis.rs:62-138 | The verdicts of the drivers, run on the extracted rules, give every rule as written the verdict of its own body, so they are that meaning |
| RuleMeaning.OrderedMeaningIsUnique | capa-x/src/capabilities/static_analysis.rs:62-138 | With references first, the verdicts of any two such solutions agree rule by rule |
| ExtractionSemantics.LiftedMeans | capa-x/src/capabilities/ruleset.rs:561-587 | The synthetic rule of a subscope matches exactly at the units of its scope where the subscope's own body holds |
| ExtractionSemantics.OptimizedMeans | capa-x/src/capabilities/ruleset.rs:459-471 | Sorting children by cost leaves the meaning over the tree unchanged, for any verdicts |
| ScopeSemantics.MatchedIffHolds | capa-x/src/capabilities/ruleset.rs:117-165 | Although rules are decided one by one while features grow, a rule matches exactly when its body holds of the features as the scan leaves them |
| ScopeSemantics.MatchedIffMeant | capa-x/src/capabilities/static_analysis.rs:62-138 | A subscope-free rule matches at a unit of its scope exactly where its body holds over the tree |
| UnitContents.UnitContents | capa-x/src/capabilities/static_analysis.rs:62-138 | After its scan a unit has exactly the features, locations and published matches contributed by itself and by the units it encloses |
| UnitContents.FileContents | capa-x/src/capabilities/static_analysis.rs:144-175 | File scope sees its own features, those without an address unlocated, and the matches of every unit of the file, but not the features of its functions |
| UnitContents.StaticMatchesContents | capa-x/src/capabilities/static_analysis.rs:221-287 | The returned matches list each rule exactly at the addresses of the units where it matched |
| RecordedEvidence.StaticMatchesAreInOrder | capa-x/src/capabilities/static_analysis.rs:221-287 | The matches of a rule are listed instructions first, then blocks, functions and the file, each in the order of the tree |
| StaticScopes.EntriesAre | capa-x/src/capabilities/static_analysis.rs:46-53 | A unit is fed its own features, and the global ones without an address |
| RuleIndex.MatchScope | capa-x/src/capabilities/ruleset.rs:117-165 | Indexed matching is the linear scan wherever that succeeds: the same features in the same key order, and the same evidence |
| RuleIndex.TrueOnlyIfTriggered | capa-x/src/capabilities/ruleset.rs:233-260 | A body with required alternatives can be true only if the bucket of one of them is present |
| RuleIndex.NewIndex | capa-x/src/capabilities/ruleset.rs:180-202 | The index lists under each bucket exactly the rules that need it, and as fallback exactly those without a requirement |
| RuleIndex.Candidates | capa-x/src/capabilities/ruleset.rs:204-228 | The initial candidates are exactly the rules whose requirement the feature keys can meet |
| RuleIndex.TryRule | capa-x/src/capabilities/ruleset.rs:132-160 | One turn of the matcher is one turn of the scan, and the candidates it leaves are exactly the later rules that the grown feature set can trigger |
| RuleIndex.EvaluableScanSucceeds | capa-x/src/capabilities/ruleset.rs:117-165 | Without COM leaves and subscopes the scan cannot fail, on any features |
| Engine.BooleanIsShortCircuit | capa-x/src/engine.rs:207-267 | The boolean pass equals the success or error of the short-circuiting evaluator on every tree and feature set |
| Engine.TwoPassesAgree | capa-x/src/capabilities/ruleset.rs:139-145 | Without COM leaves, subscopes and empty `optional:`, the two passes agree, so the matcher's assertion holds |
| Engine.PassesAgreeIff | capa-x/src/engine.rs:186-475 | On an evaluable tree, whatever the features, the two passes agree at the root and everywhere below exactly when the tree has no empty `optional:` |
| Engine.SomePassesAgreeIff | capa-x/src/engine.rs:377-424 | At one "N or more" node the passes agree exactly when its count is positive or it has alternatives |
| Engine.AssertionHolds | capa-x/src/capabilities/ruleset.rs:139-145 | What passes the boolean pass passes the evidence pass whenever each empty `optional:` lies below an even number of negations |
| Engine.EmptySomeBreaksTheAssertion | capa-x/src/engine.rs:230-242 | A tree that passes the first pass and fails the second |
| Engine.BooleanMeansHolds | capa-x/src/engine.rs:211-267 | Early returns do not matter: the boolean pass decides the order-free reading of an evaluable body |
| Engine.FullMeansHolds | capa-x/src/engine.rs:186-205 | Full evaluation decides the same reading |
| Explanations.EvaluatedExplains | capa-x/src/engine.rs:186-654 | Every full evaluation explains the body: one result per statement and leaf, in place, with its kind and description, and at a leaf or count exactly the locations, and the captures, of the features it accepts; of `Bytes` and `Os` those of the first accepted one |
| Explanations.ExplanationIsUnique | capa-x/src/engine.rs:186-654 | A body has only one explanation on given features |
| Explanations.LeafHoldsIff | capa-x/src/engine.rs:477-654 | A leaf holds exactly if some extracted feature is accepted: by equality, as a part or by regex of a text, as a prefix of bytes, or as an OS where either side may be `any` |
| RecordedEvidence.ScanIsExplained | capa-x/src/capabilities/ruleset.rs:117-165 | For each rule that matches a scan records one match, at its address, whose evidence explains the rule's body on the features as the scan leaves them |
| Engine.EvidenceIsOrderIndependent | capa-x/src/engine.rs:560-654 | Feature sets with equal contents and the same order among `Bytes` and among `Os` keys give identical evidence trees |
| Engine.EvaluateBooleanPass | capa-x/src/engine.rs:211-267 | The loops with early return compute the recursive boolean reading |
| Engine.ScanStrings | capa-x/src/engine.rs:560-600 | One pass over the keys collects all locations and captures of the accepted strings, or only those of the first |
| Engine.PublishMatch | capa-x/src/engine.rs:81-96 | The new feature set has the match published under the rule's name and each of its namespace prefixes |
| Engine.PublishNamesContents | capa-x/src/engine.rs:81-96 | Publishing adds the locations to exactly the named `match` features and leaves all others as they were |
| FeatureSets.FeatureMap.Extend | capa-x/src/engine.rs:34-40 | A known key keeps its place and gains locations; a new key goes to the end |
| FeatureSets.FeatureMap.Absorb | capa-x/src/engine.rs:46-69 | Merging keeps the places of old keys and appends the new ones in their order |
| FeatureSets.MergeContents | capa-x/src/engine.rs:46-69 | A merge has the keys of both sets and, for each, the union of its locations |
| FeatureSets.MergeEquivalent | capa-x/src/engine.rs:46-69 | Merging keeps contents and the order among `Bytes` and `Os` keys independent of where other keys sit |
| Optimizer.CostUnchanged | capa-x/src/capabilities/ruleset.rs:441-471 | Optimizing a tree does not change its cost |
| Optimizer.OptimizedIsSorted | capa-x/src/capabilities/ruleset.rs:459-471 | After optimizing, the children of every statement are sorted by cost |
| Optimizer.CheapLeavesComeFirst | capa-x/src/capabilities/ruleset.rs:423-471 | Among the children of an optimized statement checks of OS, architecture and format come before all other leaves, and string and byte patterns after them |
| Optimizer.SecondPassChangesNothing | capa-x/src/capabilities/ruleset.rs:459-471 | Optimizing is idempotent |
| Optimizer.OptimizedEvaluates | capa-x/src/capabilities/ruleset.rs:459-471 | Optimizing leaves the boolean outcome of an evaluable body unchanged on every feature set |
| Sorting.SortByKeySorts | capa-x/src/capabilities/ruleset.rs:462 | The sort orders by key and permutes |
| Sorting.SortIsStable | capa-x/src/capabilities/ruleset.rs:462 | Elements with equal keys keep their order |
| Extraction.ExpandAndExtract | capa-x/src/capabilities/ruleset.rs:392-420 | The stack of pending rules is worked off, with pending rules and remaining subscopes strictly decreasing, into exactly the expanded rules |
| Extraction.StackShrinks | capa-x/src/capabilities/ruleset.rs:395-412 | Replacing a rule by what is lifted out of it leaves less to do |
| Extraction.LiftConserves | capa-x/src/capabilities/ruleset.rs:521-587 | Lifting accounts for every subscope: each becomes a rule or stays inside one that does |
| Extraction.Extractor.ExtractRoot | capa-x/src/capabilities/ruleset.rs:521-547 | The walk that threads a counter and a list computes the rewritten body and the lifted subscopes; a root subscope stays |
| ExtractionSemantics.ExpandCovers | capa-x/src/capabilities/ruleset.rs:392-420 | Expansion loses nothing: each rule and everything lifted out of it, at any depth, is among the results |
| WrittenBodies.BuiltRestates | capa-x/src/capabilities/ruleset.rs:392-587 | A built body is the written one with children reordered and, in the place of each subscope, a reference to a rule marked as made of it, of its scope only, whose body restates the subscope's in the same way; only descriptions of subscopes are lost |
| ExtractedBodies.ExpandedLeaveNoSubscope | capa-x/src/capabilities/ruleset.rs:392-420 | Whatever the rules, extraction leaves no subscope strictly below the root of any body |
| ExtractedBodies.ExpandedAreEvaluable | capa-x/src/capabilities/ruleset.rs:392-420 | Every expanded body can be evaluated exactly when no body had a COM leaf and no body, of a rule or of a subscope, was itself a subscope |
| ExtractedBodies.ExpandedScanFailsIff | capa-x/src/capabilities/ruleset.rs:504-520 | The scan of expanded rules fails exactly when one of them has a subscope at the root of its body, on any features |
| SyntheticNames.OriginalNamesGiveFreshOnes | capa-x/src/capabilities/ruleset.rs:561-587 | The names made up for lifted subscopes are fresh whenever no rule of an accepted set is published under a name that could have been made up from a rule's name |
| SyntheticNames.SubscopeNameIsInjective | capa-x/src/capabilities/ruleset.rs:572 | A made-up name tells the rule and the number it was made up from |
| SyntheticNames.SubscopeNameSpells | capa-x/src/capabilities/ruleset.rs:572 | A made-up name is the rule's, a slash and the number in base ten |
| SyntheticNames.LiftedAreNumbered | capa-x/src/capabilities/ruleset.rs:549-587 | The counter names the subscopes lifted from one body after the rule, numbered on without a gap |
| MatchingRules.ExpandedGraphIsSound | capa-x/src/capabilities/ruleset.rs:317-324 | With fresh names, extraction creates no cycle and leaves no reference unresolved |
| MatchingRules.ExpandedNamespaces | capa-x/src/capabilities/ruleset.rs:47 | A reference resolves to the same rules before and after expansion |
| MatchingRules.RulesForScope | capa-x/src/capabilities/ruleset.rs:299-317 | With fresh names, each scope gets exactly its rules, once each, after everything they depend on |
| MatchingRuleSets.ListedAtItsScopes | capa-x/src/rules/scope.rs:99-101 | A built rule set lists a rule at its static scope and at its dynamic scope, as far as it has them, and nowhere else |
| MatchingRules.DependsIff | capa-x/src/rules/graph.rs:40-104 | A rule depends on exactly what the `match:` values in its body stand for: the rules in the namespace so named if there are any, and otherwise the rule of that name |
| Rules.NamespacesAreThoseAbove | capa-x/src/engine.rs:74-76 | A namespace's prefixes are itself and whatever it continues after a slash |
| MatchingRules.PublishersAreDependencies | capa-x/src/engine.rs:81-96 | Whoever publishes a referenced name is a dependency of the rule that refers to it |
| MatchingRuleSets.NewMatchingRuleSet | capa-x/src/capabilities/ruleset.rs:39-75 | For all rules construction succeeds exactly on what rule-set validation accepts; with fresh names it gives complete, ordered and correctly indexed scopes over an acyclic graph |
| RuleMeaning.BuiltRulesMatchAsWritten | capa-x/src/capabilities/ruleset.rs:39-75 | A built rule set matches each rule at a unit exactly where the parsed body holds, under any verdicts that fit the bodies |
| RuleGraph.GetDependencies | capa-x/src/rules/graph.rs:40-82 | The walk registers exactly what the body's references resolve to, namespaces first |
| RuleGraph.IndexRulesByNamespace | capa-x/src/rules/graph.rs:85-104 | Each prefix lists the rules under it, in order |
| RuleGraph.MembersOf | capa-x/src/rules/graph.rs:85-104 | A prefix lists exactly the names of the rules whose namespace has it |
| RuleGraph.IndexedPrefixes | capa-x/src/rules/graph.rs:91-101 | The index lists exactly the published prefixes, the empty one aside |
| RuleGraph.TopologicallyOrderRules | capa-x/src/rules/graph.rs:153-206 | It ends; with all dependencies present it succeeds exactly on acyclic rules, and then lists every rule once, after all its dependencies |
| RuleGraph.NewRuleSet | capa-x/src/rules/graph.rs:218-235 | Accepted are exactly non-empty, uniquely named, complete and acyclic rules |
| RuleGraph.CollectClosure | capa-x/src/capabilities/ruleset.rs:325-342 | The walk adds the least dependency-closed set with the new name, stopping at what it met before |
| RuleGraph.TopoSortSubset | capa-x/src/capabilities/ruleset.rs:347-383 | The unguarded walk ends and lists a closed set once each; on an acyclic graph, dependencies first |
| RuleGraph.OrderedIsAcyclic | capa-x/src/rules/graph.rs:149-206 | A dependency-first order of all names rules out every cycle |
| RuleGraph.AcyclicHasOrder | capa-x/src/rules/graph.rs:149-206 | A complete graph without cycles has a dependency-first order of exactly its names |
| Promotion.ScanIsOrderIndependent | capa-x/src/capabilities/static_analysis.rs:182-192 | Scanning feature sets that differ in where promoted keys sit gives the same matches and evidence |
| Promotion.PromoteMatches | capa-x/src/capabilities/static_analysis.rs:182-192 | Whatever the order of the hash map, exactly the recorded matches are published at their addresses |
| Promotion.ScanPublishes | capa-x/src/capabilities/static_analysis.rs:182-192 | What the scan published on its own copy is what promoting its recorded matches gives |
| Promotion.PublicationIsDetermined | capa-x/src/capabilities/static_analysis.rs:182-192 | Publishing the same matches in any two orders gives equivalent feature sets |
| Promotion.ExtendWith | capa-x/src/capabilities/static_analysis.rs:55-59 | Appending matches rule by rule in any order gives the concatenation for each rule |
| StaticDriver.FindInstructionCapabilities | capa-x/src/capabilities/static_analysis.rs:62-75 | The specified matches, and features equivalent to the specified ones |
| StaticDriver.FindBasicBlockCapabilities | capa-x/src/capabilities/static_analysis.rs:78-100 | The same for a block and its instructions |
| StaticDriver.FindCodeCapabilities | capa-x/src/capabilities/static_analysis.rs:107-138 | The specified matches of the function and everything in it, and the feature count taken before function matches are published |
| StaticDriver.FindFileCapabilities | capa-x/src/capabilities/static_analysis.rs:144-163 | The specified file matches and feature count |
| StaticDriver.FindStaticCapabilities | capa-x/src/capabilities/static_analysis.rs:221-287 | All specified matches in address order and all feature counts, for every number of jobs, every schedule of the pool and every hash-map order; no error on evaluable rules |
| Evidence.BuildMatch | capa-x/src/result_document/from_capa.rs:198-313 | Builds the specified tree; the recursion falls in rule rank, then in tree size |
| DocumentTrees.BuildTells | capa-x/src/result_document/from_capa.rs:198-313 | Whatever the builder returns is the match's document tree: its node, captures and locations in ascending order, its own children first, and below a successful reference one child per place that is due, each in turn the document tree of the match recorded there, or at a call of the thread's most recent one |
| DocumentTrees.TellsIsUnique | capa-x/src/result_document/from_capa.rs:198-313 | A match has only one document tree |
| DocumentTrees.StepsArePlanned | capa-x/src/result_document/from_capa.rs:256-303 | What is spliced in is exactly what is due: rule by rule of the name or namespace, and for each by ascending address wherever there is a match for it |
| ReportedEvidence.StaticRecordExplains | capa-x/src/capabilities/static_analysis.rs:62-175 | Every match that a static analysis records explains its rule's body on the features of the unit it is from |
| ReportedEvidence.DynamicRecordExplains | capa-x/src/capabilities/dynamic_analysis.rs:93-330 | Every match that a dynamic analysis records explains its rule's body: on its call, thread or process, on the span of the last 20 calls, or on the file |
| Evidence.BuildSucceeds | capa-x/src/result_document/from_capa.rs:198-313 | On closed evidence building never fails |
| Evidence.LastMatchWins | capa-x/src/result_document/from_capa.rs:159-170 | The index has an entry exactly for each matched address, the last match recorded there |
| Evidence.MostRecent | capa-x/src/result_document/from_capa.rs:175-195 | A match is found exactly when the thread has one up to the call, and it is that of the highest id |
| Evidence.BuildResultDocument | capa-x/src/result_document/from_capa.rs:316-347 | The document shows exactly the matched rules that are not synthetic, with the tree of each match in order; an error is that of some tree |
| StaticEvidence.StaticDocumentIsBuilt | capa-x/src/result_document/from_capa.rs:198-313 | On any output of the static drivers every recorded match gets a tree: no referenced match is missing and the recursion ends |
| StaticEvidence.ReferenceIsMet | capa-x/src/result_document/from_capa.rs:259-289 | A reference by name that was seen at a unit has a recorded match at each of its locations |
| StaticEvidence.ReferencesAreBelow | capa-x/src/result_document/from_capa.rs:239-303 | What a rule refers to, by name or namespace, ranks below it |
| AddressOrder.OrderIsTotal | capa-x/src/address.rs:61-74 | Any two addresses are ordered, and only equal ones both ways |
| AddressOrder.OrderIsByKind | capa-x/src/address.rs:61-74 | Addresses are ordered by kind and then by their parts, a call by process, thread and number |
| AddressOrder.AscendingIsSorted | capa-x/src/address.rs:61-74 | A set of addresses is listed once each in ascending order |
| ParallelMap.TryMap | capa-x/src/parallel.rs:133-215 | Under every scheduler and every stale read of the flag the outcome is the serial loop's, including which error |
| ParallelMap.EveryRunEndsSerially | capa-x/src/parallel.rs:133-215 | Every interleaving that ends holds all results, or as its lowest recorded error the one the serial loop reports |
| ParallelMap.RunKeepsInv | capa-x/src/parallel.rs:150-190 | Along every run each index is claimed by one worker, and everything claimed is held, produced or failed |
| ParallelMap.StepUsesUp | capa-x/src/parallel.rs:158-182 | Every step uses up part of the remaining work, so every run ends |
| ParallelMap.Join | capa-x/src/parallel.rs:192-214 | Gathering, taking the lowest error and sorting by index gives the serial result |
| SpanMatcher.SpanOfCallsMatcher.Next | capa-x/src/capabilities/dynamic_analysis.rs:93-155 | The new state: the slid window and its union, the last matches, and everything recorded so far, as functions of the calls seen |
| SpanWindow.SlidIsUnion | capa-x/src/capabilities/dynamic_analysis.rs:94-122 | Forgetting the oldest call and adding the next gives the union of the slid window |
| SpanMatcher.NextIsUnion | capa-x/src/capabilities/dynamic_analysis.rs:94-122 | After every call the incremental union has the features and locations of the last at most 20 calls |
| SpanMatcher.Suppressed | capa-x/src/capabilities/dynamic_analysis.rs:130-143 | A matching rule is suppressed exactly when it matched at the call before and no newly matching rule depends on it |
| SpanEvidence.RecordedIff | capa-x/src/capabilities/dynamic_analysis.rs:130-153 | A match is recorded where its run begins, and inside a run exactly where a dependent rule begins a run |
| SpanEvidence.RecordedWhenCalledFor | capa-x/src/capabilities/dynamic_analysis.rs:130-153 | In the rules' own terms: inside a run a match is recorded exactly where a rule whose body calls for it, by name or namespace, begins a run |
| SpanEvidence.RecordsComeFromCalls | capa-x/src/capabilities/dynamic_analysis.rs:145-153 | The recorded matches of a rule are exactly those found at the calls where it is recorded |
| SpanEvidence.SpanReferenceIsFound | capa-x/src/result_document/from_capa.rs:261-273 | For a span rule matching at a call the builder finds a match recorded in the same run, at the call or before it |
| SpanEvidence.SpanReferenceIsOwn | capa-x/src/capabilities/dynamic_analysis.rs:124-128 | A reference to a rule whose `match` feature the window lacks is to one that matched in the same scan, at the call alone |
| DynamicDriver.FindThreadCapabilities | capa-x/src/capabilities/dynamic_analysis.rs:160-185 | The specified thread and call matches, and the span matches recorded over all its calls |
| DynamicDriver.CallIsFed | capa-x/src/capabilities/dynamic_analysis.rs:51-64 | A call's features are at the call, and without an address exactly the global ones |
| DynamicDriver.SpanSeesItsWindow | capa-x/src/capabilities/dynamic_analysis.rs:93-128 | Each span of an analysed thread is matched on exactly the features and locations of its last 20 calls |
| DynamicDriver.ThreadReferenceIsFound | capa-x/src/result_document/from_capa.rs:175-195 | At each call of an analysed thread at which a span rule matched, recorded or suppressed, the builder's lookup finds a match of the same run |
| ThreadEvidence.ThreadEvidenceIsFound | capa-x/src/result_document/from_capa.rs:239-300 | Suppression loses no evidence: every reference by name in every tree that an analysed thread recorded, at calls, spans or the thread, has a match to splice in at each of its locations |
| ThreadEvidence.SpanReferencesAreOfTheRun | capa-x/src/result_document/from_capa.rs:175-195 | A reference in recorded span evidence to a rule matched at spans and not at calls lies at the call it was recorded at, and what is looked up there was recorded in the run that the call belongs to |
| ThreadEvidence.ThreadDocumentIsBuilt | capa-x/src/result_document/from_capa.rs:198-313 | Every match that a thread recorded gets a tree: no referenced match is missing and the recursion ends |
| ProcessDriver.FindProcessCapabilities | capa-x/src/capabilities/dynamic_analysis.rs:188-232 | The specified process, thread and call matches, the span matches recorded over each thread, and the feature count |
| ProcessDriver.FindDynamicCapabilities | capa-x/src/capabilities/dynamic_analysis.rs:278-330 | All specified matches of calls, spans, threads, processes and the file, for every hash-map order, and all feature counts; no error on evaluable rules |
| DynamicEvidence.DynamicEvidenceIsFound | capa-x/src/result_document/from_capa.rs:239-300 | Every reference by name in every tree that a dynamic analysis recorded, in any scope, has a match to splice in at each of its locations |
| DynamicEvidence.DynamicDocumentIsBuilt | capa-x/src/result_document/from_capa.rs:198-313 | On any output of the dynamic drivers every recorded match gets a tree: no referenced match is missing and the recursion ends |
| DynamicEvidence.LowerNames | capa-x/src/capabilities/dynamic_analysis.rs:298-309 | What the scopes below publish to the file under a rule's name is that rule's matches, at their recorded addresses |
| DynamicReport.UnitRuleIsRecorded | capa-x/src/capabilities/dynamic_analysis.rs:278-330 | A rule of calls, threads and processes is recorded exactly at the addresses of the units where it matched |
| ThreadEvidence.WindowNames | capa-x/src/capabilities/dynamic_analysis.rs:93-122 | A `match` feature in the union of a window was published by the scan of one of the thread's calls, at that call |
| ThreadEvidence.WindowLacksName | capa-x/src/capabilities/dynamic_analysis.rs:93-128 | The window lacks the `match` feature of every rule that is not matched at calls |
| TagFilter.FilterRulesByTag | capa-x/src/api.rs:576-619 | What is kept is the least dependency-closed set containing the tagged rules, in order; a valid rule set leaves a valid one exactly when some rule is tagged |
| TagFilter.IsTaggedIff | capa-x/src/api.rs:580-588 | A rule is tagged exactly if a string among its metadata, or directly in a list among them, contains the tag |
| TagFilter.DependenciesAreUnchanged | capa-x/src/api.rs:590-606 | A kept rule's references, to names and namespaces, resolve as before |
| TagFilter.FilteredStaysAcceptable | capa-x/src/rules/graph.rs:218-235 | Filtering a valid rule set leaves a valid one exactly when it leaves anything |
| TagFilter.SomethingIsKeptIff | capa-x/src/api.rs:608-618 | Something is left exactly when some rule is tagged |
| Wire.FeatureRoundTripIff | capa-x/src/freeze.rs:391-456 | A feature can be written unless it is COM, and is read back exactly when its regex compiles, its operand index is at most 4 and its integers fit 64 bits or are doubles |
| Wire.OperandFiveIsLost | capa-x/src/freeze.rs:460-469 | An operand offset at index 5 is written, and the reader rejects it |
| Wire.AddressRoundTrip | capa-x/src/result_document/address.rs:35-85 | Every address is read back |
| Wire.AddressReadsIff | capa-x/src/freeze.rs:267-317 | The reader accepts nothing but what the writer writes, except a value given with no address |
| Wire.ReadU32Tuple | capa-x/src/freeze.rs:247-264 | Filling the array yields the items if all fit 32 bits and fails otherwise |
| Wire.KindsAreNamed | capa-x/src/freeze.rs:393-456 | Writer and reader spell all 23 kinds of feature alike |
| Wire.DescriptionIsWritten | capa-x/src/result_document/feature.rs:1-9 | A description is written next to a feature exactly if there is one |
| Hex.HexEncode | capa-x/src/result_document/feature.rs:422-428 | The loop spells the bytes, two lower-case digits each |
| Hex.EncodedByteIsHexadecimal | capa-x/src/result_document/feature.rs:422-428 | A byte is written as its two hexadecimal digits, the higher one first |
| Hex.HexDecode | capa-x/src/features.rs:18-32 | The loop reads two digits of either case at a time and fails on anything else |
| Hex.EncodedDecodes | capa-x/src/features.rs:18-32 | Decoding what was encoded gives the bytes back, for any length |
| Hex.DecodesIff | capa-x/src/features.rs:18-32 | A string decodes to some bytes exactly when in lower case it is their encoding |
| Aarch64.MaterializeAddresses | capa-x/src/extract/aarch64/features.rs:321-331 | The loop over the block computes the resolved addresses; an instruction that does not continue the tracking clears it |
| Aarch64.TryMaterializeStep | capa-x/src/extract/aarch64/features.rs:333-383 | One instruction's effect on the tracked registers and the result |
| Aarch64.SoundIffNoLiveWriteback | capa-x/src/extract/aarch64/features.rs:321-383 | In every run from any registers tracked values and resolved addresses are right, exactly on blocks where no load moves a tracked base that it resolves or leaves tracked |
| Aarch64.MaterializedIsComputed | capa-x/src/extract/aarch64/features.rs:321-331 | On such blocks an instruction has an entry exactly if it refers to a known address, and the entry is the address that the instruction computes |
| Aarch64.MaterializedIff | capa-x/src/extract/aarch64/features.rs:321-383 | On any block with distinct addresses the result has entries for exactly the literal loads and the adds and loads from a tracked base |
| Aarch64.TrackedIff | capa-x/src/extract/aarch64/features.rs:333-383 | A register is tracked exactly if an earlier instruction put an address into it and each one since was understood and did not load over it |
| Aarch64.PostIndexResolvesWrongly | capa-x/src/extract/aarch64/features.rs:359-372 | A block on which the resolved address is never the accessed one |
| Civil.CivilIsExact | capa-x/src/api.rs:788-800 | For every integer day number the date is valid and has that day number |
| Civil.CivilInverts | capa-x/src/api.rs:788-800 | Every valid date is found from its day number |
| Civil.CivilCounts | capa-x/src/api.rs:788-800 | Day 0 is 1970-01-01 and the next day is the next date |
| Civil.NextDayNumber | capa-x/src/api.rs:786-788 | The calendar's own count: the next valid date has the next day number |
| CarvePe.Carve | capa-x/src/extract/helpers.rs:89-127 | Exactly the offsets and keys that the 256 scans find, each offset once, by descending key and then ascending offset |
| CarvePe.TryOffset | capa-x/src/extract/helpers.rs:95-122 | The candidate test with the derived key decides the reference's test |
| CarvePe.KeyIsForced | capa-x/src/extract/helpers.rs:85-100 | At most one key fits an offset |
| CarvePe.DisguisedIsFound | capa-x/src/extract/helpers.rs:95-122 | Under any key an executable is found with that key exactly where it begins, and an undisguised one with key 0 |
| CarvePe.XorIsExclusive | capa-x/src/extract/helpers.rs:99 | The operation on bytes is exclusive or: its outcome is the one byte whose bits are those set in exactly one of the two |

## Left out

- Evidence.BuildResultDocument: the rule metadata and source text of the document, its layouts and the analysis metadata are not modelled.
- MatchingRuleSets.NewMatchingRuleSet: COM expansion is not modelled; bodies are taken with COM leaves already expanded.
- MatchingRuleSets.NewMatchingRuleSet: which of several errors is reported is not stated; dependencies are visited in arbitrary order where the code sorts them by name.
- Optimizer.OptimizedIsSorted: the optimizer works on values, so updating the tree in place is not captured.
- RuleIndex.MatchScope: the copy-on-write borrowing of the feature set is not modelled, only the values.
- StaticDriver.FindStaticCapabilities: what a worker finds in a function is deterministic and is handed to the pool as a function; workers do not interleave within one function.
- DynamicReport.AnalyzeDynamic: what the document shows of span and file rules is not related to a meaning over the tree, since spans are no units of it; that their evidence explains the rule and is complete is `ReportedEvidence` and `DynamicEvidence`.
- ParallelMap.TryMap: worker panics and memory ordering beyond a stale stop flag are not modelled.
- Wire.FeatureRoundTripIff: JSON text is modelled by what parsing does to values; decimal forms of doubles are taken as exact and number equality by its canonical form.
- Aarch64.SoundIffNoLiveWriteback: the text forms of operands are not parsed; whatever the parsers reject is an instruction that clears the tracking.
- Civil.CivilIsExact: day numbers are unbounded integers, so overflow near the ends of the 64-bit range is not modelled.
- CarvePe.Carve: overflow of offsets near the top of the address space is not modelled.
- Engine.ScanStrings: regular expressions are an arbitrary predicate on pattern and text; location counts are unbounded naturals.
- Rule parsing, the COM database, code recovery, decoders, loaders, the command line, the Python binding and the renderers: validation, foreign code, I/O and presentation.
