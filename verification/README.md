# TypePython analysis core, in Dafny

This project models the analyses at the core of the TypePython checker, one analyser of the Python runtime
package and the restart queue of the editor extension, and proves what they are for: effects do not escape a
clean module, pruned class-graph searches answer like unpruned ones, a `match` over a sealed class is reported
exactly where a subclass is not caught, names called definitely bound are bound, the key distance is a metric,
printed signatures parse back, cached declaration semantics equal freshly lowered ones for ever, and at most
one language client is live.

Code that works by updating state is modelled by methods with loops, or by classes whose methods update their
fields; code made of expressions and recursion by datatypes and functions. Each method is tied to a
specification (bounded reachability, pre-order search, edit scripts, run-time semantics, ...) and the lemmas
are about that specification. Strings stay strings where their text matters (signatures, key distance, rendered
types) and are plain names elsewhere. Where the code and its documentation differ, the code is followed.

`dafny verify dfyconfig.toml` checks the whole project.

| module | what it covers |
|---|---|
| `Prelude` | option type, distinctness |
| `EffectRows`, `EffectInference`, `EffectCheck`, `CallEdges` | effect summaries, the eight-round inference, the TPY4026 coverage check, call-edge collection |
| `TaintTracking`, `TaintFlow` | the TPY4028 event loop, and the flows its reports stand for |
| `ClassSearch`, `ClassHierarchy`, `SealedMatch` | searches with a shared visited set, base resolution, nearest-member lookup, sealed `match` exhaustiveness |
| `EditDistance` | the two-row key distance and key suggestions |
| `SignatureText` | signature printer and parser |
| `SemanticTypes`, `TypeTexts`, `DeclarationCache` | type lowering and texts, the hash-consing type store, the declaration cache |
| `DefiniteBinding`, `BindingTransfer` | the annotation audit's flow state, its transfer name by name, one pass over loops |
| `BindingRuns`, `BindingSoundness` | run-time behaviour of a scope, soundness of the audit |
| `BindingExactness`, `BindingWitnesses`, `BindingVerdict`, `GuardRebinding` | exactly when the audit's claims are right, and inputs on which they are not |
| `CallableUnwrapping` | following `__wrapped__` and partial links |
| `TypedDictLiteral` | the TypedDict literal check and the dicts a literal builds |
| `OverrideCompatibility` | the override check, chains of overrides, callers |
| `GenericArguments` | splitting generic arguments over type parameters |
| `RestartQueue` | the extension's restart queue as a step machine |

## What the code does not promise

Some desirable properties hold only under a condition. Each has a proof of exactly when it holds and of how it fails:

- Eight rounds of inference give the least fixed point if and only if whatever a chain of calls reaches a chain of
  at most eight reaches (`EffectInference.EightRoundsAreEnoughIff`, `EffectInference.EightRoundsCanMiss`). The
  coverage check is sound regardless (`EffectCheck.EffectCapabilityDiagnostics`).
- `docs/diagnostics.md:341-360` and `docs/rfcs/taint-qualifier-slice.md:17-18` describe TPY4028 as a flow from a source
  to a sink that a matching sanitizer clears. Flags are exactly the flows under the conditions of
  `TaintFlow.FlagsAreExactIff` and `TaintFlow.FlagsAreExactOnAllLinesIff`. Outside them a cleaned source is flagged
  (`TaintFlow.CleanedSourceIsFlagged`), a sanitizer method on an assignment's line hides a source
  (`TaintFlow.SanitizerOnLineHidesSource`), a source method there taints anything (`TaintFlow.SourceOnLineIsFlagged`),
  and a sanitizer with a gap is flagged by itself (`TaintFlow.GapIsFlagged`).
- `docs/spec/language-spec-v1.md:1362` computes sealed exhaustiveness from the root plus its subclasses. The code
  asks only for the strict descendants; counting the root as well would make a `match` exhaustive if and only if
  it names the root (`SealedMatch.CountingTheRootMeansNamingIt`).
- The binding audit is right about a name if and only if no completed run may end with the name unbound, read off the
  program's structure, where all ways through the program know the same of guards (`BindingVerdict.ClaimIsRightIff`,
  `BindingVerdict.WaysMustAgree`). It errs at a `try` as `BindingVerdict.TryIsRightIff` says, for
  example with a `del` in a handled body; under a context manager that swallows exceptions as
  `BindingVerdict.WithIsRightIff` says; and where a known guard is bound anew inside a loop, a `try` or a pattern, and
  only there (`GuardRebinding.ClaimsHoldIff`, `GuardRebinding.SinglePassSufficesIff`).
- The cache returns a callable's annotation texts unchanged if and only if the annotations are canonical
  (`DeclarationCache.DeclarationSurvivesIff`, `TypeTexts.TextsAgreeIff`); `int | None` comes back as `Union[int, None]`.
- A signature parses back if and only if no annotation has a closing parenthesis (`SignatureText.ParsesBackIff`).
- A `**` source with extra items fits the target if and only if those items also fit the optional keys the target
  declares and the source does not (`TypedDictLiteral.ExtraItemsFitIff`); an open source if and only if the target takes
  any value under the keys it leaves open (`TypedDictLiteral.OpenSourceFitsIff`).
- Override checks compose through a member if and only if it is annotated wherever both neighbours may be
  (`OverrideCompatibility.ComposesIffAnnotated`).
- A slice of the generic-argument splitter is out of range, or an argument lost, exactly as stated by
  `GenericArguments.SlicesInRangeIff` and `GenericArguments.ArgumentsConservedIff`.
- Two clients are live exactly as stops have failed (`RestartQueue.AtMostOneLiveClientIff`).

## Model

| member | source | states |
|---|---|---|
| `EffectCheck.EffectCapabilityDiagnostics` | crates/typepython_checking/src/effects.rs:148-340 | effect confinement: an empty report on a checked module means that on every call path of any length to a seeded effectful callee every caller declares the effect and is not pure, save behind calls inside a capability scope that grants every effect the callee shows; the reports are those of the eight-round summaries; unchecked modules report nothing |
| `EffectCheck.PureFunctionsReachNoEffect` | crates/typepython_checking/src/effects.rs:1136-1140 | in a confined module no unexcused call path of any length leads from a pure function to an effect |
| `EffectCheck.PathAdmits` | crates/typepython_checking/src/effects.rs:148-340 | with no uncovered edge, every caller along an exposed call path itself declares the effect at its end, longer paths than eight included |
| `EffectCheck.CallerOfSeedAdmits` | crates/typepython_checking/src/effects.rs:923-939 | an unreported, unexcused call of a seeded effectful callee has a caller that is itself declared, not pure, with the effect in its row |
| `EffectCheck.UnseededCallerIsUncovered` | crates/typepython_checking/src/effects.rs:896-907 | the by-name fallback for methods cannot hide a caller: without a seed summary a caller of a seeded effectful callee is always reported |
| `EffectCheck.CleanIsConfined` | crates/typepython_checking/src/effects.rs:148-340 | no uncovered call edge implies confinement of every effect |
| `EffectCheck.ReportUncoveredCalls` | crates/typepython_checking/src/effects.rs:923-939 | one report per caller, line and callee; a report exists exactly for the calls whose callee shows an effect that the caller does not declare while no scope around the line grants all effects the callee shows |
| `EffectCheck.ReportsNameUncoveredCalls` | crates/typepython_checking/src/effects.rs:909-939 | the reports name, by caller, line and dotted callee, exactly the calls left uncovered, told on rows, sources and scopes themselves |
| `EffectCheck.UnreportedIsAnswered` | crates/typepython_checking/src/effects.rs:909-939 | with nothing reported, each effect a callee shows is in the row of a caller that is not pure and not merely inferred, or in the grants of a scope around the line |
| `EffectCheck.TestsMeanUncovered` | crates/typepython_checking/src/effects.rs:1115-1147 | the two tests of the check fail exactly when some effect is undeclared and each scope around the line lacks some effect |
| `EffectRows.RoundsAreBoundedReachability` | crates/typepython_checking/src/effects.rs:406-468 | after n rounds a row holds an effect exactly when a chain of at most n calls, through callers without seed summary, ends in a seeded callee that has it |
| `EffectRows.StableForever` | crates/typepython_checking/src/effects.rs:462-464 | stopping at the first round without change loses nothing: all later rounds have the same rows |
| `EffectRows.StableRowsAreLeastFixedPoint` | crates/typepython_checking/src/effects.rs:406-468 | stable rows satisfy the propagation equation and lie below every assignment of rows closed under it |
| `EffectRows.ChainsStayInClosed` | crates/typepython_checking/src/effects.rs:406-468 | an assignment of rows closed under propagation contains the effect at the end of every chain |
| `EffectRows.EightRoundsSuffice` | crates/typepython_checking/src/effects.rs:419-465 | at most eight undeclared callers are enough for the rows after eight rounds to be stable; the exact condition is that of StableIffChainsAreShort |
| `EffectRows.StableIffChainsAreShort` | crates/typepython_checking/src/effects.rs:419-465 | the rows after n rounds are stable, hence the least fixed point, if and only if whatever a chain reaches a chain of at most n calls reaches |
| `EffectRows.EnoughRounds` | crates/typepython_checking/src/effects.rs:419-465 | as many rounds as there are undeclared callers reach every effect any chain reaches |
| `EffectRows.ShortenChain` | crates/typepython_checking/src/effects.rs:406-468 | a chain longer than the number of undeclared callers can be shortened to one that is not |
| `EffectRows.SkipDetour` | crates/typepython_checking/src/effects.rs:406-468 | cutting the stretch between two visits to one caller leaves a shorter chain for the same effect |
| `EffectRows.RowsIgnoreEdgeOrder` | crates/typepython_checking/src/effects.rs:424-459 | rows do not depend on the order or multiplicity in which edges are visited |
| `EffectRows.RoundsGrow` | crates/typepython_checking/src/effects.rs:450-458 | a round never removes an effect |
| `EffectRows.GatherMembership` | crates/typepython_checking/src/effects.rs:424-459 | what a round gives an undeclared caller is exactly what its callees showed in the round before; declared callers get nothing |
| `EffectRows.RowFromChain` | crates/typepython_checking/src/effects.rs:419-465 | a chain of at most n calls puts its effect in the row after n rounds |
| `EffectRows.ChainFromRow` | crates/typepython_checking/src/effects.rs:419-465 | an effect in the row after n rounds has a chain of at most n calls behind it |
| `EffectRows.FunctionSummariesByName` | crates/typepython_checking/src/effects.rs:855-861 | the table answers for a name exactly with the first summary of a free function of that name |
| `EffectRows.MethodSummariesByName` | crates/typepython_checking/src/effects.rs:863-876 | the table answers for a type and name exactly with the first summary of that method |
| `EffectRows.BuildSummaryTables` | crates/typepython_checking/src/effects.rs:855-894 | joined lookup finds the first summary of a key, or nothing when there is none |
| `EffectRows.FirstOfConcatenation` | crates/typepython_checking/src/effects.rs:461-461 | earlier summaries shadow later ones, so seeds shadow inferred summaries |
| `EffectRows.FirstIsEarliest` | crates/typepython_checking/src/effects.rs:855-876 | the summary found for a key is the one at its earliest position |
| `EffectInference.CollectInferredEffectSummaries` | crates/typepython_checking/src/effects.rs:406-468 | the loop with early exit ends with the rows of round eight: an effect is inferred exactly when a chain of at most eight calls leads to it |
| `EffectInference.EightRoundsAreEnoughIff` | crates/typepython_checking/src/effects.rs:406-468 | what the inference returns is everything reachable by chains if and only if chains of at most eight calls reach all that chains reach |
| `EffectInference.PropagateRound` | crates/typepython_checking/src/effects.rs:420-461 | in-place accumulation during one round gives exactly the rows of the next round; an unchanged round is stable |
| `EffectInference.PropagateEdge` | crates/typepython_checking/src/effects.rs:440-458 | one edge adds the callee's row to the caller's entry, changes no other entry, reports growth truthfully, lists the callee once among the entry's sources and keeps the first line |
| `EffectInference.ReadEdge` | crates/typepython_checking/src/effects.rs:424-459 | declared callers and callees without effects contribute nothing |
| `EffectInference.VisitEdge` | crates/typepython_checking/src/effects.rs:424-459 | visiting one more edge adds that edge's contribution of the round before and nothing else |
| `EffectInference.LookupSeesRound` | crates/typepython_checking/src/effects.rs:461-461 | lookups over seeds followed by inferred summaries show the seed's row, else the row of the current round |
| `EffectInference.RoundCompletes` | crates/typepython_checking/src/effects.rs:419-465 | accumulating onto the previous rows equals recomputing them |
| `EffectInference.Values` | crates/typepython_checking/src/effects.rs:467-467 | the inferred summaries are listed once per key |
| `EffectInference.LineRow` | crates/typepython_checking/src/effects.rs:419-465 | on a straight line of calls, function i shows the effect after n rounds exactly when it is at most n calls away |
| `EffectInference.EightRoundsCanMiss` | crates/typepython_checking/src/effects.rs:419-419 | on a line of more than eight calls the first function reaches the effect by a chain, its inferred row lacks it, and eight rounds are not stable |
| `CallEdges.CollectExprCallEdges` | crates/typepython_checking/src/effects.rs:744-853 | exactly the calls made anywhere in an expression, at any depth, become edges of its site; edges collected earlier stay in front |
| `CallEdges.CollectGuardCallEdges` | crates/typepython_checking/src/effects.rs:672-710 | exactly the predicate calls of a guard, through negation, conjunction and disjunction, become edges |
| `TaintTracking.TaintSourceSinkDiagnostics` | crates/typepython_checking/src/effects.rs:1149-1328 | the reports are, in event order, the sink calls flagged by an evaluation that reads the loop's rule backwards from each local's last assignment; TaintFlow says what such flags mean |
| `TaintFlow.FlagsAreExactIff` | crates/typepython_checking/src/effects.rs:1149-1328 | where source and sanitizer methods are called only as the value of their line's assignment, sink calls are flagged exactly when a declared source flows into an argument along def-use chains, in every program, if and only if every sanitizer covers every sink and no bare source can meet a conditional sanitizer and a sink; flows and conditions are told on the declared facts themselves |
| `TaintFlow.FlagsAreExactOnAllLinesIff` | crates/typepython_checking/src/effects.rs:1149-1328 | the same without any condition on lines, if and only if moreover no source method matches a sink and, with any sanitizer method declared, no source at all does |
| `TaintFlow.ReportsAreFlows` | crates/typepython_checking/src/effects.rs:1149-1328 | where the decorators meet those conditions the reports, by callee and line, are exactly the sink calls into whose arguments a source flows that the sink asks about |
| `TaintFlow.SinkOfSourceIsReportedIff` | crates/typepython_checking/src/effects.rs:1585-1592 | a source passed straight to a sink is reported if and only if a declared source context and a declared sink context are equal or one of the two is bare |
| `TaintFlow.ReportsAreFlags` | crates/typepython_checking/src/effects.rs:1207-1257 | a report stands for a flagged call, under the callee's name or the receiver's and the method's |
| `TaintFlow.SharpByContexts` | crates/typepython_checking/src/effects.rs:1560-1592 | the conditions on declared facts say the same as those on the sets of contexts the check computes |
| `TaintFlow.FlowsByContexts` | crates/typepython_checking/src/effects.rs:1613-1670 | flows along declared facts are flows along the sets of contexts the check computes |
| `TaintFlow.FlaggedIffReached` | crates/typepython_checking/src/effects.rs:1594-1611 | one call in one program: flagged exactly when a source its sink asks about flows into an argument, unsanitized for that context |
| `TaintFlow.LocalFlowsAsRecorded` | crates/typepython_checking/src/effects.rs:1258-1324 | for every sink context, the taint recorded for a local matches it exactly when a source flows into the value last assigned to the local |
| `TaintFlow.AssignmentFlowsAsRecorded` | crates/typepython_checking/src/effects.rs:1258-1324 | an assignment records a match exactly when a source flows into its value |
| `TaintFlow.ExpressionFlowsAsRecorded` | crates/typepython_checking/src/effects.rs:1613-1670 | an expression carries a match exactly when a source flows into it, given that its locals do |
| `TaintFlow.NothingSurvives` | crates/typepython_checking/src/effects.rs:1308-1318 | with sharp decorations, what a conditional sanitizer leaves of the target's old taint matches no sink |
| `TaintFlow.SanitizedValueDoesNotFlow` | crates/typepython_checking/src/effects.rs:1289-1306 | behind an assignment that counts as sanitized no source flows into the value that a sink asks about |
| `TaintFlow.LineSourcesAddNothing` | crates/typepython_checking/src/effects.rs:1286-1288 | source calls on the line add no match, unless the value is such a call itself |
| `TaintFlow.RecordedIsEmitted` | crates/typepython_checking/src/effects.rs:1261-1323 | recorded taint comes from callables declared sources and not sanitizers |
| `TaintFlow.CleanedSourceIsFlagged` | crates/typepython_checking/src/effects.rs:1308-1318 | raw = source(); raw = clean(raw); sink(raw) is flagged for a bare source and a conditional sanitizer that covers the sink, although nothing flows |
| `TaintFlow.SanitizerOnLineHidesSource` | crates/typepython_checking/src/effects.rs:1304-1318 | x = source() + clean() with a sanitizer method is not flagged at a sink, although the source flows into x |
| `TaintFlow.SourceOnLineIsFlagged` | crates/typepython_checking/src/effects.rs:1286-1288 | a constant assigned on the line of a source method call is flagged at a sink, although nothing flows |
| `TaintFlow.GapIsFlagged` | crates/typepython_checking/src/effects.rs:1692-1708 | a sanitizer that leaves a sink context open is flagged although it is passed nothing |
| `TaintTracking.RecordedTaintIsFlagged` | crates/typepython_checking/src/effects.rs:1594-1611 | recorded taint that matches a sink context always raises the flag |
| `TaintTracking.FlagMeansRecordedTaint` | crates/typepython_checking/src/effects.rs:1594-1611 | with sanitizers that cover the sinks, a flag means that the taint recorded for an argument matches |
| `TaintTracking.GapRaisesFalseFlag` | crates/typepython_checking/src/effects.rs:1692-1708 | a sanitizer that leaves some declared sink context open raises a flag without any recorded taint |
| `TaintTracking.ArgumentTaintContexts` | crates/typepython_checking/src/effects.rs:1613-1670 | the recursion that filters as it goes finds the argument's matching taint plus what partial sanitizers leave open |
| `TaintTracking.CoveringLeavesNothing` | crates/typepython_checking/src/effects.rs:1692-1708 | covering sanitizers leave nothing open at any depth of an argument |
| `TaintTracking.NoSinkNoResidue` | crates/typepython_checking/src/effects.rs:1692-1708 | without a sink to compare with, as in assignments, sanitized values carry nothing |
| `TaintTracking.MatchingDistributes` | crates/typepython_checking/src/effects.rs:1672-1686 | filtering by a sink distributes over union of taint |
| `TaintTracking.AnyArgumentFlagged` | crates/typepython_checking/src/effects.rs:1594-1611 | the argument loop flags a call exactly when something reaches the sink through some argument |
| `TaintTracking.TrackMethodCall` | crates/typepython_checking/src/effects.rs:1222-1257 | a method call changes no local's taint and only its own line's source and sanitizer entries |
| `TaintTracking.TrackAssignment` | crates/typepython_checking/src/effects.rs:1258-1324 | after an assignment the maps again equal the reference evaluation, for every function and local |
| `TaintTracking.AssignedSources` | crates/typepython_checking/src/effects.rs:1261-1288 | what flows into an assignment: its value's taint, its callee's sources and source calls of the same line |
| `TaintTracking.TaintAtAssigned` | crates/typepython_checking/src/effects.rs:1307-1323 | an assignment decides its own target and leaves every other local of every function alone |
| `TaintTracking.LastAssignmentDecides` | crates/typepython_checking/src/effects.rs:1307-1323 | a local's taint is decided by the last assignment its function makes to it, judged by the events before |
| `TaintTracking.FunctionsAreIndependent` | crates/typepython_checking/src/effects.rs:1307-1323 | dropping all other functions' events changes no local's taint |
| `TaintTracking.LineContextsAreLocal` | crates/typepython_checking/src/effects.rs:1232-1238 | line entries depend on the function's own calls only |
| `TaintTracking.AssignmentIsLocal` | crates/typepython_checking/src/effects.rs:1259-1306 | an assignment reads only what its own function's events decide |
| `TaintTracking.SortedEventsAreOrdered` | crates/typepython_checking/src/effects.rs:1196-1200 | the loop visits a permutation of the events in line order, calls before an assignment of their line |
| `TaintTracking.InsertKeepsOrder` | crates/typepython_checking/src/effects.rs:1336-1344 | inserting an event by its sort key keeps the order |
| `TaintTracking.SameLineAssignmentComesLater` | crates/typepython_checking/src/effects.rs:1336-1344 | a call sees the environment before an assignment on its own line |
| `TaintTracking.TaintDependsOnEnvOnly` | crates/typepython_checking/src/effects.rs:1613-1670 | an expression's taint depends on the environment's values only |
| `ClassSearch.Search` | crates/typepython_checking/src/assignments.rs:1996-2092 | a depth-first search with one shared visited set finds an answer exactly when a reachable class has one, on any graph; on acyclic graphs it is the first answer of the unpruned pre-order |
| `ClassSearch.SearchVisited` | crates/typepython_checking/src/assignments.rs:2015-2092 | a failed search leaves visited classes without answers and closed under bases; pruning is exact while everything visited below is dead; ends by the number of unvisited classes |
| `ClassSearch.SearchBases` | crates/typepython_checking/src/assignments.rs:2070-2092 | the loop over bases returns the first base's answer and otherwise visits them all |
| `ClassSearch.PruningIsHarmless` | crates/typepython_checking/src/assignments.rs:2024-2027 | on acyclic graphs every visited class below the next base is already known to be dead |
| `ClassSearch.FirstLiveBase` | crates/typepython_checking/src/assignments.rs:2070-2088 | behind dead bases the first live base decides the pre-order answer |
| `ClassSearch.AllBasesDead` | crates/typepython_checking/src/assignments.rs:2070-2092 | a class without an answer whose bases are all dead is dead |
| `ClassSearch.Space.ClosedHoldsReachable` | crates/typepython_checking/src/assignments.rs:2024-2027 | a set closed under bases holds everything reachable from its members |
| `ClassSearch.Space.RankDrops` | crates/typepython_checking/src/assignments.rs:2015-2092 | on acyclic graphs a base reaches strictly fewer classes, which bounds the unpruned search |
| `ClassSearch.Space.FirstHitOfConcatenation` | crates/typepython_checking/src/assignments.rs:2070-2088 | the first answer of a sequence is the first part's, else the second's |
| `ClassHierarchy.FindOwnedWritableMemberTarget` | crates/typepython_checking/src/assignments.rs:1996-2092 | a member target other than the default is found exactly when a reachable class declares the member; on acyclic hierarchies it is the first declaring class's in pre-order |
| `ClassHierarchy.LocalTarget` | crates/typepython_checking/src/assignments.rs:2031-2068 | a class answers exactly when it declares the member: with its first instance value, else its first property setter, else as a read-only property, else as not writable |
| `ClassHierarchy.FirstOfLocal` | crates/typepython_checking/src/assignments.rs:2021-2047 | what comes first among the declarations a class makes under a name comes first in the module |
| `ClassHierarchy.LocalMembers` | crates/typepython_checking/src/assignments.rs:2031-2038 | exactly the declarations the class owns under the member's name |
| `ClassHierarchy.FindClass` | crates/typepython_checking/src/declarations.rs:508-522 | finds the first top-level class of the name, and one exactly when there is one |
| `ClassHierarchy.Program.ResolveDirectBase` | crates/typepython_checking/src/declarations.rs:508-522 | a base text names the module's own top-level class where there is one, else what the module imports under it, else nothing |
| `ClassHierarchy.Program.ResolvedBases` | crates/typepython_checking/src/declarations.rs:919-922 | exactly the classes that the resolvable base texts stand for |
| `ClassHierarchy.DescendsFrom` | crates/typepython_checking/src/declarations.rs:945-953 | true exactly when some class reachable through resolvable bases names the root, on arbitrary, possibly cyclic, graphs |
| `ClassHierarchy.DescendsFromVisited` | crates/typepython_checking/src/declarations.rs:955-974 | success proves descent; failure leaves visited classes that do not name the root and lead only to visited ones; ends by the number of unvisited classes |
| `ClassHierarchy.InheritsThroughBase` | crates/typepython_checking/src/declarations.rs:965-973 | a class inherits what a resolvable base inherits |
| `ClassHierarchy.ResolveSealedRoot` | crates/typepython_checking/src/declarations.rs:896-923 | a sealed class at or above the type is found exactly when there is one; on acyclic hierarchies it is the nearest in pre-order |
| `SealedMatch.MissingSealedCases` | crates/typepython_checking/src/declarations.rs:524-596 | a root is looked up exactly when every wildcard is guarded and some class at or above the subject is sealed; then the missing names are exactly the strict descendants of the root whose values fall through all cases for some outcome of the guards |
| `SealedMatch.ExhaustiveIffEveryValueIsCaught` | crates/typepython_checking/src/declarations.rs:524-596 | no value of a strict descendant can fall through exactly when a case without guard has a wildcard, or every such value is an instance of a class of the hierarchy named by a case without guard |
| `SealedMatch.UncaughtMayFallThrough` | crates/typepython_checking/src/declarations.rs:533-564 | read at run time, where guards come out either way: a value may fall through exactly when wildcards are guarded and no case without guard names a class it is an instance of |
| `SealedMatch.CollectSealedDescendants` | crates/typepython_checking/src/declarations.rs:925-943 | the worklist ends with exactly the transitive subclasses, also on cyclic base lists |
| `SealedMatch.PushChildren` | crates/typepython_checking/src/declarations.rs:931-941 | one pass adds exactly the direct children and pushes exactly the new ones |
| `SealedMatch.CoveredByPattern` | crates/typepython_checking/src/declarations.rs:552-563 | a pattern covers exactly the descendants whose values it catches, and only if it names a class of the hierarchy |
| `SealedMatch.CoveredNames` | crates/typepython_checking/src/declarations.rs:550-564 | a descendant is covered exactly when some unguarded case catches it |
| `SealedMatch.SearchesAgree` | crates/typepython_checking/src/declarations.rs:925-974 | the downward worklist and the upward search find the same descendants of the root, in a module where imports add none and classes declared twice list the same bases |
| `SealedMatch.SearchesAgreeIff` | crates/typepython_checking/src/declarations.rs:925-974 | where classes declared twice list the same bases, the two searches agree on every name if and only if only descendants by base texts inherit the root through imported bases |
| `SealedMatch.DerivationInherits` | crates/typepython_checking/src/declarations.rs:925-974 | every derivation by base texts is found by the upward search |
| `SealedMatch.PathIsDerivation` | crates/typepython_checking/src/declarations.rs:955-974 | every path of the upward search leads to a class derived by base texts, where imports add nothing |
| `SealedMatch.BaseIsDirect` | crates/typepython_checking/src/declarations.rs:955-974 | a resolved base is foreign, or a class of the module listed under its own name |
| `SealedMatch.DirectlyMeansNames` | crates/typepython_checking/src/declarations.rs:932-938 | listing a base and naming it are the same where classes declared twice list the same bases |
| `SealedMatch.RootValuesNeedTheRoot` | crates/typepython_checking/src/declarations.rs:545-569 | values of the sealed root's own class are caught exactly when a case names the root |
| `SealedMatch.CountingTheRootMeansNamingIt` | crates/typepython_checking/src/declarations.rs:545-569 | with the root counted in, a match is exhaustive if and only if it names the root |
| `EditDistance.TypedDictKeyDistance` | crates/typepython_checking/src/assignments.rs:1204-1218 | the two-row loop returns the cost of the cheapest insert, delete, substitute script: one script attains it, none beats it |
| `EditDistance.NextRow` | crates/typepython_checking/src/assignments.rs:1207-1216 | one pass turns the row for a prefix of the left key into the row for one more character |
| `EditDistance.CellFromRows` | crates/typepython_checking/src/assignments.rs:1209-1215 | the least of three neighbours read from the two rows prices the two longer prefixes |
| `EditDistance.NextCell` | crates/typepython_checking/src/assignments.rs:1209-1215 | the price of two longer prefixes from the prices of the shorter ones |
| `EditDistance.DistanceIsLeastCost` | crates/typepython_checking/src/assignments.rs:1204-1218 | the recurrence is the least cost over all scripts |
| `EditDistance.CheapestScript` | crates/typepython_checking/src/assignments.rs:1204-1218 | constructs a script that costs exactly the distance |
| `EditDistance.NoScriptIsCheaper` | crates/typepython_checking/src/assignments.rs:1204-1218 | every script from left to right costs at least the distance |
| `EditDistance.DistanceSteps` | crates/typepython_checking/src/assignments.rs:1204-1218 | dropping a last character changes the distance by at most one |
| `EditDistance.DistanceZeroIffEqual` | crates/typepython_checking/src/assignments.rs:1204-1218 | zero exactly on equal keys |
| `EditDistance.DistanceIsSymmetric` | crates/typepython_checking/src/assignments.rs:1204-1218 | the order of the two keys does not matter |
| `EditDistance.TriangleInequality` | crates/typepython_checking/src/assignments.rs:1204-1218 | going through a third key is never shorter |
| `EditDistance.ComposeScripts` | crates/typepython_checking/src/assignments.rs:1204-1218 | two scripts in sequence can be done by one that costs no more than both |
| `EditDistance.ComposeLastEdits` | crates/typepython_checking/src/assignments.rs:1204-1218 | the same when both scripts work on the last character of the middle key |
| `EditDistance.DistanceBounds` | crates/typepython_checking/src/assignments.rs:1204-1218 | at least the difference of the lengths and at most the longer length |
| `EditDistance.ClosestTypedDictKey` | crates/typepython_checking/src/assignments.rs:1185-1202 | a suggestion is the first nearest among the keys within the threshold, the keys being given in the field table's ascending order; none exactly when no key is within it |
| `EditDistance.OneMoreKey` | crates/typepython_checking/src/assignments.rs:1185-1197 | a later key replaces the suggestion only if it is suggestible and strictly nearer |
| `EditDistance.ThresholdIsSuggestible` | crates/typepython_checking/src/assignments.rs:1191-1201 | being within the threshold means at most two edits, or at most one edit for every three characters of either key |
| `SignatureText.PrintedSignatureParsesBack` | crates/typepython_binding/src/binding_impl.rs:697-731 | round trip: parsing the printed text of a well-formed parameter list gives names, annotations, defaults and all four kind flags back |
| `SignatureText.PrintThenParse` | crates/typepython_checking/src/declaration_semantics.rs:623-672 | the same for the two loops run one after the other |
| `SignatureText.ParsesBackIff` | crates/typepython_binding/src/binding_impl.rs:697-731 | an otherwise well-formed parameter list parses back if and only if no annotation has a closing parenthesis |
| `SignatureText.NoParenthesisComesBack` | crates/typepython_checking/src/declaration_semantics.rs:623-672 | no text whatever is parsed to an annotation with a closing parenthesis |
| `SignatureText.RenderSignature` | crates/typepython_binding/src/binding_impl.rs:697-731 | the printing loop emits the pieces of every parameter in order, with star and slash markers where due |
| `SignatureText.SurveyParams` | crates/typepython_binding/src/binding_impl.rs:702-704 | the number of positional-only parameters, whether there is a variadic one, and the first keyword-only index |
| `SignatureText.ParseDirectSignatureParams` | crates/typepython_checking/src/declaration_semantics.rs:623-672 | the parsing loop equals the reading of the split parts between the parentheses; no parentheses, no answer |
| `SignatureText.InnerTextIff` | crates/typepython_checking/src/declaration_semantics.rs:623-629 | what is read of a signature is the text between a leading opening parenthesis and the first closing one, and nothing without them |
| `SignatureText.StarsTellKind` | crates/typepython_checking/src/declaration_semantics.rs:645-653 | of any part of a signature text, one star in front makes it variadic, two keyword-variadic, and nothing else does |
| `SignatureText.ReadPart` | crates/typepython_checking/src/declaration_semantics.rs:634-669 | markers only open sections; any other part becomes one parameter |
| `SignatureText.SplitTopLevelTypeArgs` | crates/typepython_syntax/src/syntax_parts/type_expr.rs:732-755 | the index-based splitter equals splitting at commas outside brackets |
| `SignatureText.SplitOfJoin` | crates/typepython_syntax/src/syntax_parts/type_expr.rs:732-755 | splitting undoes joining for trimmed, bracket-balanced pieces without a comma outside brackets |
| `SignatureText.ParseRendered` | crates/typepython_checking/src/declaration_semantics.rs:644-668 | one printed parameter reads back to its name, annotation, default and star kind |
| `SignatureText.PositionalOnlyFirst` | crates/typepython_binding/src/binding_impl.rs:702-702 | the counted positional-only parameters are the leading ones |
| `SignatureText.SlashIndex` | crates/typepython_checking/src/declaration_semantics.rs:630-662 | the slash stands right behind the positional-only parameters, and is absent without them |
| `SignatureText.SectionOpenMeansKeywordOnly` | crates/typepython_checking/src/declaration_semantics.rs:631-666 | a plain parameter is keyword-only exactly when a star marker or a variadic parameter came before it |
| `SignatureText.ParseKeepsUp` | crates/typepython_checking/src/declaration_semantics.rs:634-669 | after the pieces of the first n parameters the parser holds exactly those parameters |
| `SignatureText.PiecesParseBack` | crates/typepython_checking/src/declaration_semantics.rs:623-672 | splitting and reading the joined pieces gives the parameters back |
| `SemanticTypes.TypeStore.constructor` | crates/typepython_checking/src/type_core.rs:26-31 | a new store is empty |
| `SemanticTypes.TypeStore.Intern` | crates/typepython_checking/src/type_core.rs:33-41 | a known type gets its old id and nothing changes; a new one is appended; arena and index stay mutually inverse |
| `SemanticTypes.TypeStore.Get` | crates/typepython_checking/src/type_core.rs:43-45 | reads the type stored under an id, nothing for an id never given out |
| `SemanticTypes.Store.Interned` | crates/typepython_checking/src/type_core.rs:33-41 | interning keeps arena and index mutually inverse, makes the id readable and keeps every older id |
| `SemanticTypes.IdsKeepTheirMeaning` | crates/typepython_checking/src/type_core.rs:26-46 | whatever is interned in whatever order, an id reads back its type ever after, and two ids are equal exactly when the types are |
| `SemanticTypes.InternAllKeepsIds` | crates/typepython_checking/src/type_core.rs:33-41 | interning any number of types keeps every id given out before |
| `SemanticTypes.InternedForEver` | crates/typepython_checking/src/type_core.rs:33-45 | the id given for the i-th type is its id in every later store |
| `SemanticTypes.InternAllSplits` | crates/typepython_checking/src/type_core.rs:33-41 | interning two lists in turn is interning their concatenation |
| `SemanticTypes.LowerAfterToExpr` | crates/typepython_checking/src/type_core.rs:98-141 | lowering undoes conversion to a type expression, for every semantic type |
| `SemanticTypes.LowerAllAfterToExprAll` | crates/typepython_checking/src/type_core.rs:98-141 | the same for lists of types |
| `SemanticTypes.LowerParamsAfterToParamExpr` | crates/typepython_checking/src/type_core.rs:233-263 | the same for callable parameter lists |
| `TypeTexts.TextsAgreeIff` | crates/typepython_syntax/src/syntax_parts/type_expr.rs:384-414 | the type lowered from a parsed expression renders as the expression itself if and only if the expression is canonical, wherever in it a name, bar or bracket may stand |
| `SemanticTypes.CanonicalTextsAgree` | crates/typepython_syntax/src/syntax_parts/type_expr.rs:384-414 | the type lowered from an expression with normal names and explicit unions renders as the expression itself |
| `TypeTexts.CutLightens` | crates/typepython_syntax/src/syntax_parts/type_expr.rs:845-853 | a prefix or space taken off a name makes the text lighter and leaves bars and brackets as they are |
| `TypeTexts.SmallLetterLightens` | crates/typepython_syntax/src/syntax_parts/type_expr.rs:717-730 | so does a capital of a head put in lower case |
| `SemanticTypes.ShorthandTextChanges` | crates/typepython_syntax/src/syntax_parts/type_expr.rs:384-414 | int or None renders with a bar as an expression and with brackets as a type |
| `DeclarationCache.DeclarationSemanticCache.constructor` | crates/typepython_checking/src/declaration_semantics.rs:420-430 | a new cache is empty, with an empty store of its own |
| `DeclarationCache.DeclarationSemanticCache.DeclarationSemanticFacts` | crates/typepython_checking/src/declaration_semantics.rs:543-560 | hit or miss, the answer equals lowering the declaration afresh, except that a callable's texts are rendered anew from its types; older entries stay as they are and a hit changes nothing in the store |
| `DeclarationCache.DeclarationSemanticCache.AnswerAll` | crates/typepython_checking/src/declaration_semantics.rs:718-734 | after any sequence of queries every answer is the direct one, a callable's texts rendered anew |
| `DeclarationCache.DeclarationSemanticCache.BuildFacts` | crates/typepython_checking/src/declaration_semantics.rs:453-505 | the facts built on a miss materialise to the direct semantics of the declaration, a callable's texts rendered anew |
| `DeclarationCache.DeclarationSemanticCache.CacheCallable` | crates/typepython_checking/src/declaration_semantics.rs:458-479 | cached callables materialise to the directly lowered signature with texts rendered anew; other declarations have none |
| `DeclarationCache.DeclarationSemanticCache.CacheParams` | crates/typepython_checking/src/declaration_semantics.rs:463-476 | cached parameters materialise to the directly lowered ones, in order, with texts rendered anew |
| `DeclarationCache.DeclarationSemanticCache.InternSemanticType` | crates/typepython_checking/src/declaration_semantics.rs:431-437 | an interned optional type loads back as it was; absence stays absence |
| `DeclarationCache.TextsSurviveIff` | crates/typepython_checking/src/declaration_semantics.rs:562-596 | a callable comes out of the cache unchanged if and only if each text of a present type is that type's rendering |
| `DeclarationCache.OnlyTextsChange` | crates/typepython_checking/src/declaration_semantics.rs:562-596 | types, flags, values, aliases and imports always come out as lowered |
| `DeclarationCache.DeclarationSurvivesIff` | crates/typepython_checking/src/declaration_semantics.rs:507-528 | a declaration comes out of the cache as it is lowered if and only if it is no callable or its annotation expressions are canonical: names in normal form, no union with bars, no explicit union of one branch |
| `DeclarationCache.ShorthandDoesNotSurvive` | crates/typepython_checking/src/declaration_semantics.rs:562-596 | a result annotated with a shorthand union comes out with another text |
| `DeclarationCache.MaterializeIsStable` | crates/typepython_checking/src/declaration_semantics.rs:562-621 | a growing store never changes what cached facts mean |
| `DeclarationCache.FaithfulInLargerStore` | crates/typepython_checking/src/declaration_semantics.rs:543-621 | entries faithful to direct lowering stay so as the store grows |
| `BindingSoundness.DefiniteBindingIsSound` | typepython/annotation_compat.py:260-356 | every name reported definitely bound at exit is bound after every completed run, any number of iterations and any point of raising included, where no handled try body can lose it, no context manager swallows exceptions, and no loop, try or pattern rebinds or unbinds a guard known on entry |
| `BindingVerdict.ClaimIsRightIff` | typepython/annotation_compat.py:260-356 | where what is known of guards stays right and is the same on all ways through the program, and only the name itself is deleted: the audit's claim that a name is bound is right for all runs if and only if the structure of the program lets no completed run end with it unbound |
| `BindingVerdict.QuietIsUniform` | typepython/annotation_compat.py:260-356 | the text of a program is enough: where it touches no guard known at its start and binds no guard, whatever tested names it binds, what is known of guards stays right and is the same on all ways |
| `BindingVerdict.QuietBehind` | typepython/annotation_compat.py:260-277 | the same behind statements that bind guards themselves, such as the import of TYPE_CHECKING |
| `BindingVerdict.WaysMustAgree` | typepython/annotation_compat.py:729-746 | two branches that import the guard under its two names: the audit forgets it, no run deletes the name under it, and the structure of the program has it that one may |
| `BindingVerdict.CanLoseIff` | typepython/annotation_compat.py:336-356 | under the same conditions: some run of the code, completed or cut short, loses the name if and only if the code has a live del of it or a live handler that binds it |
| `BindingVerdict.TryIsRightIff` | typepython/annotation_compat.py:336-356 | under the same conditions: a bound name is rightly kept through a try with any handlers if and only if it comes out of the finally part bound however the parts before can leave it, handlers being entered with the name unbound exactly if the body can lose it |
| `BindingVerdict.WithIsRightIff` | typepython/annotation_compat.py:451-457 | under the same conditions: behind a context manager that may swallow exceptions a name is rightly called bound if and only if it is bound on entry and the body cannot lose it |
| `BindingVerdict.RebindingIsKeptByAudit` | typepython/annotation_compat.py:336-356 | the audit keeps a name through a try that rebinds it at the end of its body, whatever the body does |
| `BindingVerdict.RebindingIsSoundIff` | typepython/annotation_compat.py:336-356 | it is right to do so if and only if the body cannot lose the name |
| `BindingVerdict.HandledDeleteIsUnsound` | typepython/annotation_compat.py:336-356 | a handled try with a del keeps the name in the audit and loses it in a run |
| `BindingVerdict.SuppressingManagerIsUnsound` | typepython/annotation_compat.py:451-457 | a name bound only under a context manager that swallows exceptions is called bound, wrongly |
| `GuardRebinding.ClaimsHoldIff` | typepython/annotation_compat.py:303-356 | for any set of names: behind every loop, every try or every match that binds and unbinds only these before its code may run, all claims about guarded names are right if and only if none of them is known on entry as a guard or as a way to one |
| `GuardRebinding.SinglePassSufficesIff` | typepython/annotation_compat.py:303-328 | for any set of names: the single pass gives the iterated fixed point for all loops that bind and unbind only these, if and only if none of them is known before as a guard or as a way to one |
| `GuardRebinding.ReboundGuardMisleads` | typepython/annotation_compat.py:303-356 | whatever guard is known: a loop, a try and a match that bind it anew, on which the audit keeps a name that a run deletes |
| `GuardRebinding.SecondPassDiffers` | typepython/annotation_compat.py:303-328 | the loop among them: a second pass would have seen it |
| `BindingTransfer.OnePassIsEnough` | typepython/annotation_compat.py:303-328 | where no statement of a loop binds or unbinds a name known before as a guard, be other tested names bound or not: iterating the loop head any number of times gives the single-pass result, and every solution of the loop equation that knows the guards lies below it |
| `BindingTransfer.TransferIsIdempotentAndDistributive` | typepython/annotation_compat.py:708-759 | the transfer of any statements distributes, on bound names, over the meet of states that know the same of the guards, and is idempotent where it leaves what is known of them as it was |
| `BindingTransfer.LearntGuardIsNotIdempotent` | typepython/annotation_compat.py:260-277 | statements that import a guard behind a test of it are not idempotent, though they touch no known one |
| `BindingTransfer.AlikeBehind` | typepython/annotation_compat.py:679-759 | states that know the same of the guards do so behind any statements |
| `BindingTransfer.SameEffect` | typepython/annotation_compat.py:260-356 | what statements do to a name depends on what is known of the guards at the start and on nothing else |
| `BindingTransfer.TransferIsPerName` | typepython/annotation_compat.py:260-356 | the transfer of any statement list is, for each name by itself, keep, set or clear, as the decided tests select |
| `BindingTransfer.StmtTransferIsPerName` | typepython/annotation_compat.py:260-356 | the same for each kind of statement |
| `BindingTransfer.TryTransferIsPerName` | typepython/annotation_compat.py:336-356 | the same for try, meeting body, handlers, else and finally |
| `BindingTransfer.UntouchedKept` | typepython/annotation_compat.py:679-759 | what the audit knows of a name stays while no statement binds or unbinds it |
| `BindingTransfer.StaysTidy` | typepython/annotation_compat.py:679-759 | through any statements, names with a known canonical name are definitely bound and names of the scope |
| `BindingTransfer.StaticTruthDependsOnNames` | typepython/annotation_compat.py:970-997 | the static truth of a test depends only on which of the references in it are guards |
| `BindingRuns.StaticTruthIsExact` | typepython/annotation_compat.py:970-997 | judged by the names' run-time objects, the static truth of a test is exactly what it must come out as |
| `BindingRuns.StaticTruthIsRuntimeTruth` | typepython/annotation_compat.py:970-997 | a statically decided test has that value at run time if what is taken for a guard in it is one |
| `BindingRuns.UntouchedStay` | typepython/annotation_compat.py:679-706 | a run leaves alone, bound to the same object or unbound, every name its statements do not bind or unbind, however it ends |
| `BindingSoundness.RunKeepsAccuracy` | typepython/annotation_compat.py:260-356 | a completed run keeps what the audit knows of guard names right |
| `BindingSoundness.StmtKeepsAccuracy` | typepython/annotation_compat.py:260-356 | the same statement by statement |
| `BindingSoundness.GuardedIsAccurate` | typepython/annotation_compat.py:336-356 | once the parts before finally are left, in whatever way, the merged state is right about guard names |
| `BindingSoundness.DecidedBranch` | typepython/annotation_compat.py:260-277 | a branch the audit excludes is never run, as long as it is right about guard names |
| `BindingSoundness.NeverUnbound` | typepython/annotation_compat.py:697-706 | code that cannot lose a name keeps it bound however its run ends, exceptions included |
| `BindingSoundness.RunRespectsEffect` | typepython/annotation_compat.py:260-356 | a completed run does to a guarded name at least what the audit says |
| `BindingSoundness.StmtRespectsEffect` | typepython/annotation_compat.py:260-356 | the same statement by statement |
| `BindingSoundness.LoopRespectsEffect` | typepython/annotation_compat.py:303-328 | what one pass promises holds at every loop head of every run |
| `BindingSoundness.TryRespectsEffect` | typepython/annotation_compat.py:336-356 | what the audit promises before finally holds whichever point of the body raised and whichever handler ran |
| `BindingSoundness.MatchRespectsEffect` | typepython/annotation_compat.py:459-472 | what the audit promises after a match holds whichever case, or none, was taken |
| `BindingExactness.RunIsFound` | typepython/annotation_compat.py:260-356 | every run, completed or cut short, does to a name what the structure of the program says it may, as long as what the audit knows of guards stays right |
| `BindingExactness.LosesWhatItCan` | typepython/annotation_compat.py:336-356 | code with a live unbinding may lose the name when an exception cuts it short |
| `BindingExactness.KeepsWhatItCannotLose` | typepython/annotation_compat.py:336-356 | code without one has a completed run that keeps the name and no run that does not |
| `BindingWitnesses.RealizeEnd` | typepython/annotation_compat.py:260-356 | where ways through the program know the same of guards: whatever the structure says a completed run may do to a name, some run does, and it leaves in the guard names what the audit knows of them |
| `BindingWitnesses.RealizeRaise` | typepython/annotation_compat.py:260-356 | the same for runs cut short by an exception |
| `DefiniteBinding.AuditVisitor.constructor` | typepython/annotation_compat.py:617-633 | a scope starts with its parameters bound and nothing known of canonical names |
| `DefiniteBinding.AuditVisitor.RestoreCurrentScopeState` | typepython/annotation_compat.py:718-727 | the three fields become the saved ones |
| `DefiniteBinding.AuditVisitor.MergeCurrentScopeStates` | typepython/annotation_compat.py:729-746 | the three fields become the meet of the two states |
| `DefiniteBinding.AuditVisitor.MergeMultipleCurrentScopeStates` | typepython/annotation_compat.py:748-759 | the three fields become the meet of all the states, taken from the left |
| `DefiniteBinding.AuditVisitor.BindRuntimeName` | typepython/annotation_compat.py:679-687 | the name is bound, its canonical name known exactly when one was given |
| `DefiniteBinding.AuditVisitor.BindAssignmentTargets` | typepython/annotation_compat.py:668-677 | all target names are bound |
| `DefiniteBinding.AuditVisitor.UnbindRuntimeName` | typepython/annotation_compat.py:697-706 | the name and its canonical name are dropped; a runtime name stays overridden |
| `DefiniteBinding.AuditVisitor.VisitDelete` | typepython/annotation_compat.py:551-553 | all deleted names are unbound |
| `DefiniteBinding.AuditVisitor.VisitStatements` | typepython/annotation_compat.py:634-635 | the in-place visitor computes the transfer of the statement list from any starting state |
| `DefiniteBinding.AuditVisitor.Visit` | typepython/annotation_compat.py:445-553 | the in-place visitor computes the transfer of the statement |
| `DefiniteBinding.AuditVisitor.VisitIf` | typepython/annotation_compat.py:260-277 | a test decided by the scope's own canonical names leaves the state of the branch taken, any other the meet of both branches |
| `DefiniteBinding.AuditVisitor.VisitLoop` | typepython/annotation_compat.py:303-315 | targets and body visited once, met with the state before, then the else branch |
| `DefiniteBinding.AuditVisitor.VisitWhile` | typepython/annotation_compat.py:317-328 | body visited once, met with the state before, then the else branch |
| `DefiniteBinding.AuditVisitor.VisitTry` | typepython/annotation_compat.py:336-356 | meet of the state before, of body with else, and of every handler, then finally |
| `DefiniteBinding.AuditVisitor.VisitMatch` | typepython/annotation_compat.py:459-472 | meet of the state before and of every case |
| `DefiniteBinding.KnownValues` | typepython/annotation_compat.py:638-666 | which names stand for a guard, and what imported values, copies, attributes and instances of the two followed classes are known as |
| `CallableUnwrapping.LegacyUnwrapCallable` | typepython/annotation_compat.py:232-246 | ends on every finite graph; raises exactly on cyclic chains and otherwise returns the one end of the chain |
| `CallableUnwrapping.LoopHasNoEnd` | typepython/annotation_compat.py:235-237 | meeting an object twice proves the chain cyclic and without end |
| `CallableUnwrapping.EndIsUnique` | typepython/annotation_compat.py:238-246 | an end reached is the only end, and the chain is not cyclic |
| `CallableUnwrapping.Links.CycleNeverEnds` | typepython/annotation_compat.py:235-237 | a chain that meets an object twice goes on for ever |
| `CallableUnwrapping.Links.FollowAdds` | typepython/annotation_compat.py:232-246 | following i and then k links is following their sum |
| `TypedDictLiteral.CleanLiteralFits` | crates/typepython_checking/src/assignments.rs:917-1123 | a literal without diagnostics always builds a dict with every required key and every key well typed, whatever optional keys are present and whatever overrides happen |
| `TypedDictLiteral.ReportsAreExactIff` | crates/typepython_checking/src/assignments.rs:917-1123 | for literal keys and safe sources with known types, and sound and complete assignability: nothing is reported if and only if, whatever the entries contribute, each key and value is admitted by the target and every required key is there |
| `TypedDictLiteral.SafeSourceFitsIff` | crates/typepython_checking/src/assignments.rs:972-1052 | a closed source, or one whose extra items fit, is unreported on its own if and only if every dict it may bring fits the target |
| `TypedDictLiteral.ReportedLiteralMisfits` | crates/typepython_checking/src/assignments.rs:917-1123 | for every report there is a contribution that is wrong |
| `TypedDictLiteral.ExtraItemsFitIff` | crates/typepython_checking/src/assignments.rs:1027-1052 | an unreported source with extra items always fits if and only if its extra items also fit the target's optional keys that the source does not declare |
| `TypedDictLiteral.OpenSourceFitsIff` | crates/typepython_checking/src/assignments.rs:972-1025 | an open source that is not reported always fits if and only if the target takes any value under every key that the source does not declare; such a target has extra items |
| `TypedDictLiteral.TypedDictLiteralEntryDiagnostics` | crates/typepython_checking/src/assignments.rs:917-1123 | reported are exactly the entry errors, plus each required key that no entry guarantees |
| `TypedDictLiteral.CheckEntry` | crates/typepython_checking/src/assignments.rs:931-1107 | which errors one entry has and which keys it guarantees |
| `TypedDictLiteral.CheckExpansionFields` | crates/typepython_checking/src/assignments.rs:986-1025 | which fields of a source clash and which required ones are guaranteed |
| `TypedDictLiteral.PieceIsTyped` | crates/typepython_checking/src/assignments.rs:838-850 | every key an unreported entry contributes is declared or covered by extra items, and its value well typed |
| `TypedDictLiteral.GuaranteeIsKept` | crates/typepython_checking/src/assignments.rs:1022-1024 | a guaranteed key is present in whatever the entry contributes |
| `TypedDictLiteral.LeastPieceKeys` | crates/typepython_checking/src/assignments.rs:1022-1024 | an entry counts as guaranteeing a declared key exactly if the least it may contribute has the key |
| `TypedDictLiteral.BuildIsTyped` | crates/typepython_checking/src/assignments.rs:931-1107 | typing survives later entries overriding earlier ones |
| `OverrideCompatibility.MethodOverrideIncompatibility` | crates/typepython_checking/src/declarations.rs:110-209 | no failure exactly when member kind, parameters and result are compatible; a failure given is true of the pair, and no reason that comes before it is |
| `OverrideCompatibility.VerdictTellsSubstitution` | crates/typepython_checking/src/declarations.rs:157-209 | with assignability a preorder and outside the rule for context managers: no failure if and only if kinds, counts, ways of binding and names agree, every argument an annotated base parameter takes the overriding one takes, and the result is assignable; a type mismatch names the first parameter that refuses an argument its base takes |
| `OverrideCompatibility.ParamFailureSays` | crates/typepython_checking/src/declarations.rs:157-195 | one parameter passes exactly when it is bound, named and annotated alike; otherwise the first of the three that differs is named |
| `OverrideCompatibility.TakingMeansAnnotated` | crates/typepython_checking/src/declarations.rs:173-188 | under a preorder, assignable annotations mean that every argument the base parameter takes is taken |
| `OverrideCompatibility.ChecksCompose` | crates/typepython_checking/src/declarations.rs:53-98 | if each class on a chain passes the check against its direct base, and what two members annotate the members between them annotate, the last is compatible with the first; receivers annotated nowhere are included |
| `OverrideCompatibility.ChainIsSubstitutable` | crates/typepython_checking/src/declarations.rs:110-209 | whatever call the ancestor accepts, the last class accepts, with a result assignable to the ancestor's |
| `OverrideCompatibility.OverrideAcceptsCalls` | crates/typepython_checking/src/declarations.rs:110-209 | a compatible override that annotates no parameter its base leaves open accepts every argument list its base accepts: positions, keywords, defaults, surplus; with an assignable result |
| `OverrideCompatibility.ComposesIffAnnotated` | crates/typepython_checking/src/declarations.rs:110-209 | direct checks compose through a member, for all neighbours whose common annotations lie among given spots, if and only if the member annotates those spots |
| `OverrideCompatibility.UnannotatedHidesClash` | crates/typepython_checking/src/declarations.rs:110-209 | a spot left unannotated lets two neighbours that clash there pass their direct checks |
| `OverrideCompatibility.CompatibleThroughAnnotated` | crates/typepython_checking/src/declarations.rs:110-209 | compatibility is transitive through a member annotated wherever both its neighbours are |
| `OverrideCompatibility.CompatibleMeansSignatures` | crates/typepython_checking/src/declarations.rs:110-209 | the identical-signature shortcut changes no verdict outside the context-manager rule |
| `GenericArguments.OwnerGenericSubstitutions` | crates/typepython_checking/src/declaration_semantics.rs:244-303 | nothing is bound unless the owner type, annotations stripped, applies the class itself; otherwise the substitutions are the split of its arguments over the parameters, absent when a slice is out of range |
| `GenericArguments.AnnotationsComeOff` | crates/typepython_checking/src/type_core.rs:53-68 | however many annotations stand around a type, all of them come off and nothing else |
| `GenericArguments.BindTypeParams` | crates/typepython_checking/src/declaration_semantics.rs:267-302 | the index-driven loop binds each parameter to its slice of the arguments, and panics exactly where a slice is out of range |
| `GenericArguments.CountNonPack` | crates/typepython_checking/src/declaration_semantics.rs:280-287 | the number of parameters other than type-variable tuples |
| `GenericArguments.SlicesInRangeIff` | crates/typepython_checking/src/declaration_semantics.rs:288-296 | with one type-variable tuple every slice is in range if and only if the arguments cover the parameters around it, or do not reach it, or no type variable stands before it |
| `GenericArguments.ArgumentsConservedIff` | crates/typepython_checking/src/declaration_semantics.rs:267-302 | for any number of arguments: reading the bindings back gives the argument list if and only if arguments run out before the pack, or cover the parameters around it with no ParamSpec behind it, or no type variable stands before it and those behind take them all |
| `GenericArguments.PrefixConserved` | crates/typepython_checking/src/declaration_semantics.rs:267-302 | without a pack, reading back gives the prefix of the arguments there is room for |
| `GenericArguments.OnePackSplits` | crates/typepython_checking/src/declaration_semantics.rs:267-302 | parameters before and after the pack take one argument each and the pack what lies between |
| `GenericArguments.PlainParamsTakePrefix` | crates/typepython_checking/src/declaration_semantics.rs:272-278 | type variables take the next arguments in order while they last |
| `GenericArguments.ReadBackFlattens` | crates/typepython_checking/src/declaration_semantics.rs:267-302 | the substitution maps hold every binding, so they read back in declaration order |
| `RestartQueue.IdleStateTellsOutcome` | editors/vscode/extension.js:141-175 | between jobs a client is held exactly when the restart begun last wanted one and its stop and start succeeded; it is the one built last and running, and all other live clients are ones that failed to stop |
| `RestartQueue.JobsRunInOrder` | editors/vscode/extension.js:165-228 | in every run the jobs begun and those queued are, in order, the jobs asked for: none is lost, repeated or overtaken, and the shutdown is asked for last |
| `RestartQueue.StepsTellClient` | editors/vscode/extension.js:141-162 | in every run as many clients were built as stops succeeded for restarts that wanted a client, so a failed stop ends its job without one; the client held is told by the steps alone |
| `RestartQueue.StepMovesJobs` | editors/vscode/extension.js:169-228 | a step takes a job from the front of the queue or adds one at its end, as the step says |
| `RestartQueue.NothingSurvivesDeactivation` | editors/vscode/extension.js:214-228 | once a deactivated machine has nothing left to do no client is held, and one is live if and only if some stop has failed |
| `RestartQueue.QueueMakesProgress` | editors/vscode/extension.js:169-175 | while there is work some step other than a new request can be taken |
| `RestartQueue.FailedStopLeavesTwo` | editors/vscode/extension.js:132-139 | a run with one failed stop and two live clients |
| `RestartQueue.AtMostOneLiveClientIff` | editors/vscode/extension.js:132-175 | in every run, whatever fails: at most one client is live if and only if at most one stop has failed, and none has while a client is held or being stopped; every other live client is one that failed to stop |
| `RestartQueue.AtMostOneLiveClient` | editors/vscode/extension.js:132-175 | while no stop has failed at most one client is live: the one held or being stopped |
| `RestartQueue.StepKeepsInv` | editors/vscode/extension.js:132-175 | every step keeps the invariant, whether stops and starts succeed or fail |
| `RestartQueue.StepCountsStuck` | editors/vscode/extension.js:132-161 | a step leaves one more client stuck exactly when it is a failed stop |
| `RestartQueue.RunsKeepInv` | editors/vscode/extension.js:132-175 | every state of every run satisfies the invariant, and as many clients are stuck as stops have failed |
| `RestartQueue.StepKeepsClientInv` | editors/vscode/extension.js:132-162 | which client is held and live, phase by phase, is kept by every step |
| `RestartQueue.StepKeepsQueueInv` | editors/vscode/extension.js:169-228 | the shutdown job is last in the queue and comes from deactivation only |
| `RestartQueue.LetGoKeepsClientInv` | editors/vscode/extension.js:132-139 | letting the client go leaves at most the leaving client live |
| `RestartQueue.StopKeepsClientInv` | editors/vscode/extension.js:151-155 | after a stop settles only the newly started client and clients that failed to stop are live |
| `RestartQueue.StartKeepsClientInv` | editors/vscode/extension.js:154-161 | a start that fails drops the held client; one that succeeds keeps it |

## Left out

- EffectCheck.EffectCapabilityDiagnostics: local, imported, standard-library and adapter summaries, capability scopes and call surfaces are inputs, because collecting them copies facts of other files; confinement is stated over that input and over call edges, as calls met only as surfaces are never propagated.
- EffectInference.CollectInferredEffectSummaries: the contract speaks of rows; which source names and which line a summary lists (used in wording only) are stated edge by edge, in `EffectInference.PropagateEdge`, and not for the whole loop.
- EffectRows.RoundsAreBoundedReachability: rows are sets of effects; the display order of labels is not modelled.
- CallEdges.CollectExprCallEdges: one site at a time; the statement lists whose expressions are collected (lines 490-670 of `effects.rs`) and the owner of a line are inputs.
- TaintTracking.TaintSourceSinkDiagnostics: the function that owns a line (`owner_for_line`) is part of each event, and the decorator tables are input.
- TaintFlow.FlagsAreExactIff: flows go through names, operands and sanitizer arguments in straight-line order; the code ignores `if` branches, containers and the bodies and arguments of undecorated callables, and so do the flows.
- ClassHierarchy.FindOwnedWritableMemberTarget: the specialised owner and declaring types that travel with the search are left out; the class name a base type stands for is a parameter.
- ClassHierarchy.Program.ResolveDirectBase: import resolution is a table from module and name to a class of the program; of duplicate declarations the first counts.
- SealedMatch.SearchesAgreeIff: for modules in which a class declared twice lists the same bases each time, since one search reads every declaration and the other the first; bases such as `Base[int]` are compared as text, as the code does.
- SealedMatch.MissingSealedCases: the subject's type name is an input; enum and literal exhaustiveness and text edits for missing cases are left out.
- SignatureText.ParsesBackIff: for lists whose names have no marker characters and whose annotations are trimmed, bracket-balanced and do not end in `=`; the binder's other output (typed sites) is not text.
- DeclarationCache.DeclarationSemanticCache.DeclarationSemanticFacts: the lowering of annotation text and the normal forms of names and heads are parameters because parsing is foreign; the cache is one per thread, so one cache is modelled.
- SemanticTypes.TypeStore.Intern: ids are unbounded; the source's machine-width ids are assumed not to run out.
- BindingSoundness.DefiniteBindingIsSound: one scope; break, continue, return, global, walrus and nested scopes are outside the statement language, and guards imported by an enclosing scope are ordinary names.
- BindingVerdict.ClaimIsRightIff: for programs that delete no other name (whose failing deletion could cut runs short) and whose ways know the same of guards where they meet (`BindingVerdict.WaysMustAgree` shows that it fails otherwise); two evaluations of one expression may differ.
- BindingTransfer.OnePassIsEnough: for bound names; canonical names after loops may need more passes along chains of copies and are not claimed to be accurate.
- GuardRebinding.ClaimsHoldIff: names guarded as in `BindingSoundness.DefiniteBindingIsSound`, and guards steady inside the parts of the statement.
- TypeTexts.TextsAgreeIff: for unions with bars of at least two branches, which is what the parser makes; what the normal forms of names do to a text's weight is a hypothesis on these parameters.
- DefiniteBinding.AuditVisitor.Visit: findings about annotations, decorators and consumers are left out; expressions appear only as tests and as assigned names.
- TypedDictLiteral.TypedDictLiteralEntryDiagnostics: which diagnostics are reported, not their order, number or wording.
- TypedDictLiteral.CleanLiteralFits: for resolvable values and for `**` sources that are closed or whose extra items also fit the target's own keys; assignability is a parameter that is sound for value membership.
- TypedDictLiteral.ReportsAreExactIff: for literal keys and `**` sources as above, with resolved types on both sides; a wrong entry counts as wrong although a later one overrides it.
- OverrideCompatibility.ChecksCompose: for members outside the context-manager rule, with assignability a preorder; substitution of `Self` by the owner is not part of the chain result.
- OverrideCompatibility.MethodOverrideIncompatibility: results are given with `Self` already replaced by the owner, so the identical-signature shortcut is modelled for `Self`-free members; the wording of a type mismatch is left out.
- GenericArguments.OwnerGenericSubstitutions: expansion of inferred arguments (`expand_inferred_generic_args`) is a function parameter.
- GenericArguments.ArgumentsConservedIff: for one type-variable tuple; the language allows no second one.
- RestartQueue.AtMostOneLiveClientIff: requests after deactivation (which would run beside the shutdown), watchers, output channels and message windows are left out.
- Parsing of source text, file loading, the command line, the language server, packaging, incremental builds and process spawning are I/O or foreign code.
- Diagnostic wording, spans and suggestion edits.
- Field-copying code (`bind`, metadata mappings), shape transforms, duplicate grouping and final, abstract and interface checks would only add easy members.
