# Verified models of the repository's tooling

This project models the algorithms inside the repository's scripts and proves what
those scripts rely on. Each component is one or a few modules:

- **Gate scheduler** (`GateGraph`, `GateRun`, `GateLog`, `RunGates`). A gate graph has
  `needs` edges (must pass) and `after` edges (must settle). Admission finds duplicate
  ids, unknown references and cycles. The scheduler is a machine over start, settle and
  skip events: the executor is an arbitrary total outcome per gate id, and which running
  gate settles next is arbitrary. The class in `RunGates` updates the same collections
  as the script and is proved to perform only legal runs of the machine. `GateLog` says
  what a run is by its log alone.
- **Config-catalog type walk** (`Potentials`, `TypeGraph`, `TypeWalk`, `TypeSoundness`,
  `TypeReadings`, `TypeExactness`, `TypeUnfolding`, `TypeRoutes`, `LookupPath`).
  `lookupPath` answers found, missing or unknown over possibly recursive declarations,
  with one guard set shared by all branches. A *reading* of a type settles which branch
  each union takes, what a type the walk cannot see through holds, and which names the
  members hold that are not properties: index signatures, methods, and those of a merged
  declaration are one mark on a member list. The *unfolding* of the declarations is the
  walk without its guard, down to a depth. The theorems hold of every lookup that ends
  at some depth; one does where no cycle of declarations nets more indexed accesses than
  property hops, and such cycles are absent exactly when a ranking exists.
- **Schema paths and the catalog checks** (`SchemaPaths`, `SchemaWalk`,
  `SchemaOmissions`, `SchemaWalker`, `SchemaForms`, `SchemaRejection`, `SchemaCheck`).
  The printer and parser of key paths, the walk of a schema expression, which of the
  paths the expression names it leaves out or passes over, the fold over composed
  schemas, and the check of every key against the declared type. Which identifiers and
  other expressions stand for a composition is an arbitrary predicate.
- **Paste worklist** (`TypeNames`, `PasteClosure`, `PasteReport`, `PasteWorklist`). The
  declarations a configuration type needs verbatim, and the imports they leave as
  references.
- **Publication protocol** (`Registry`, `Publication`, `Convergence`,
  `RegistryPublication`). Runs advance one registry request at a time; any number of
  runs interleave, and a crash is a run that is never scheduled again. Assumptions: `npm
  publish --tag=t` sets only tag `t`; other publishers never rewrite a published
  version, never move a package's release dist-tag away from this version, and do not
  point the entry package's `latest` at this version.
- **Layered topological sort** (`PackageGraph`, `TopoSort`, `PackageOrder`). Locale
  collation is assumed to be a strict total order on strings, and the list of groups to
  be no longer than an array can be.
- **Compiler-face traversal** (`ProjectFaces`, `FaceTraversal`, `FaceRules`,
  `FaceIsolation`). Paths are sequences of segments; the repository is a map of parsed
  configs.
- **Vendor rescope rewriter** (`RescopePieces`, `RescopeLaws`, `RescopeLine`,
  `RescopeHead`, `RescopeText`, `RescopeSegments`, `RescopeFile`, `RescopeTokens`,
  `RescopeLines`, `RescopeOrder`). The patterns are modelled on characters, and proved
  equal to a rewrite of each segment of a line, between line terminators, cut at its
  quotes.
- **Markdown destinations and splices** (`Splice`, `SplicePieces`, `MarkdownScan`,
  `MarkdownNodes`, `MarkdownRewrite`). A text is written from a tree of prose and
  references; locating, sorting and splicing is proved to write the tree with the new
  destinations.
- **Digest framing** (`DigestFraming`). The bytes fed to the hash and a decoder for
  them. The hash and the UTF-8 encoding are arbitrary functions.
- **JSDoc prose** (`Words`, `JsDoc`, `JsDocParser`, `JsDocRules`). The line classifier,
  the paragraph, list and item buffers, and their flushes.
- **Worker pool** (`WorkerPool`, `PoolLimit`). Workers interleave at their only `await`.
  A lint result is an arbitrary function of the target, which loses nothing because
  every target is linted exactly once.

`Graphs`, `SortedLists`, `Text` and `Options` hold what several components share.

What the proofs found about the code:

- `latest` protects a release only if the release dist-tag is not itself `latest`, or
  the entry package is the last of the bundle. Loading a release manifest does not
  check this; `Publication.UnsafeRun` builds the unsafe run for every other bundle, and
  `Publication.EntryFirstIsUnsafe` gives one.
- The shared guard of `lookupPath` can lose an answer that the types determine, and
  starting with a larger guard set can recover it (`LookupPath.SharedGuardLosesAnswers`).
  It never turns an answer into the opposite one. The guard cuts a walk exactly when the
  walk without it would meet a declaration twice with equally many steps left
  (`LookupPath.CutIff`); declarations that rule this out for a path length have no cut at
  that length (`LookupPath.ReachedOnceIsExact`).
- The documentation of `lookupPath` says that what it cannot see through is unknown and
  never missing. It answers missing for any name beside an index signature, a method or
  a merged declaration (`LookupPath.IndexSignatureMissing`), and the catalog check then
  reports a key that the type allows (`SchemaCheck.IndexSignatureReported`). A missing
  path is in no reading exactly where the walk came to no such member list without the
  name (`LookupPath.MissingUnlessOverlooked`).
- `lookupPath` never ends on `type A = A['x']` (`LookupPath.SelfIndexedAliasNeverEnds`).
- Resolving a type name never ends on two files that import it from each other without
  declaring it (`TypeNames.MutualImportsExample`); it ends exactly when the imports
  followed for the name can be ranked (`TypeNames.AnswersIffChainEnds`).
- The rescope documentation calls the rewrite idempotent. It is so exactly when no two
  tokens of one name share a quote on an eligible line (`RescopeFile.FileIdempotentIff`);
  the line `'cordis'cordis'` is rewritten a second time
  (`RescopeOrder.SharedQuoteNotSettled`).
- The schema walk does not emit every path of object and array compositions that a schema
  names: `a.b` of `z.object({ a: z.object({ b }) })` is lost
  (`SchemaOmissions.NestedShorthandOmitted`). In a schema that names no key twice, every
  path is emitted exactly when no nested object has a shorthand and no chained `set` or
  `push` adds a field or a part (`SchemaOmissions.EmitsAllIff`).
- The documentation of the schema walk says that it rejects what it cannot see. It passes
  over nested shorthands, spreads, methods and objects that are not literals, elements
  and values that stand for a composition, fields added by `set`
  (`SchemaRejection.NestedInputsUnseen`, `SchemaRejection.AddedFieldUnseen`) and union
  variants that are not calls (`SchemaRejection.UnionDropsNamedVariant`). What it says
  holds exactly of the expressions the walk cannot read or drops nothing from
  (`SchemaRejection.RejectsUnseenIff`).
- The documentation of the face check promises the leaf of the aggregate from which the
  traversal began; references are judged by the face of the config that holds them. A
  config of the other face, reached from an aggregate, goes unreported
  (`FaceIsolation.MixedIsUnreported`). An empty report means what the documentation says
  exactly when no such config refers into a split project (`FaceIsolation.IsolatedIff`).
- The destination scanner misreads a bracket inside a code span of a label, and a
  backslash that ends a destination before a title (`MarkdownNodes.MisreadInputs`).

## Model

| member | source | states |
|---|---|---|
| GateGraph.CycleSearch.Visit | scripts/run-gates.ts:731-748 | a visit that finds nothing leaves the active map and path as they were and completes the gate; a visit that finds something returns a closed walk |
| GateGraph.FindDependencyCycle | scripts/run-gates.ts:725-755 | the search returns nothing exactly when the union of `needs` and `after` is acyclic, and otherwise a closed walk along those edges |
| GateGraph.UnknownReference | scripts/run-gates.ts:708-719 | no error exactly when every reference names a gate; a reported reference is a real one |
| GateGraph.ValidateGateGraph | scripts/run-gates.ts:700-723 | a graph is admitted exactly when it is not empty, has unique ids, known references and no cycle; an error names a true defect |
| GateRun.ReachableConsistent | scripts/run-gates.ts:775-818 | in every reachable state at most `maxActive` gates run, the running list holds each running gate once, results match the settled states, and skips are justified |
| GateRun.StatusesPersist | scripts/run-gates.ts:779-818 | a settled status never changes and no gate becomes pending again |
| GateLog.LegalIffFollows | scripts/run-gates.ts:779-838 | a log of events is a run exactly when, by the log alone, each event follows from those before it: the first gate of the list whose needs passed and whose `after` gates ended starts while a slot is free; a started gate settles only otherwise; and when nothing runs or may start, the first gate with a need that failed is skipped, naming those needs in order |
| GateLog.StartedOnceAndReady | scripts/run-gates.ts:781-788 | a gate is handed over once, after an event in which each of its `needs` settled as passed and one in which each of its `after` gates settled or was skipped |
| GateLog.ResultOfLog | scripts/run-gates.ts:793-816 | in a finished run each gate settled or was skipped, and its result is its own outcome or the skip with the needs it named |
| GateRun.MinimalGate | scripts/run-gates.ts:790-794 | every nonempty set of gates of an admitted graph has one whose predecessors all lie outside it |
| GateRun.NeverStalls | scripts/run-gates.ts:790-794 | with nothing running and a gate pending, one gate can start or one has a failed need: the stall error is unreachable |
| GateRun.Progress | scripts/run-gates.ts:779-818 | in every reachable unfinished state some event is possible |
| GateRun.CompleteIsFinal | scripts/run-gates.ts:790-792 | once every gate has settled no event is possible |
| GateRun.RunsAreBounded | scripts/run-gates.ts:779-818 | every run has at most two events per gate, in any order of settling |
| GateRun.FinalStatuses | scripts/run-gates.ts:793-816 | in a finished run a gate is skipped exactly when one of its needs failed or was skipped, and has its own outcome otherwise |
| GateRun.SkipsFormChain | scripts/run-gates.ts:790-808 | the skips of any run, with their reported needs, form one deterministic chain |
| GateRun.CompleteSkipsMaximal | scripts/run-gates.ts:790-808 | no chain of skips is longer than that of a finished run |
| GateRun.ScheduleIndependence | scripts/run-gates.ts:765-838 | two finished runs with any settle orders and any two concurrency limits end in the same state and skip the same gates in the same order |
| RunGates.Scheduler.FillSlots | scripts/run-gates.ts:780-788 | afterwards the pool is full or no pending gate is ready; nothing changes unless a gate started |
| RunGates.Scheduler.AwaitOne | scripts/run-gates.ts:811-817 | the loop waits only while something runs and the pool is full or nothing is ready; whichever gate settles, the run stays legal and shrinks |
| RunGates.Scheduler.Run | scripts/run-gates.ts:779-818 | the loop ends with every gate settled |
| RunGates.RunGates | scripts/run-gates.ts:765-825 | it answers exactly for an admitted graph and a limit that is a positive safe integer, with one result per gate in input order from a finished legal run; otherwise with the justified error |
| RunGates.ResultsIndependentOfSchedule | scripts/run-gates.ts:811-825 | two runs of the scheduler return the same list of results |
| RunGates.ResultsSolveStatuses | scripts/run-gates.ts:793-838 | the returned statuses solve the equations that define them from the outcomes alone |
| RunGates.StatusesUnique | scripts/run-gates.ts:827-838 | those equations have at most one solution on an admitted graph |
| Potentials.PotentialExistsIff | scripts/gen-config-catalog.ts:317-326 | a ranking of declarations exists exactly when no cycle nets a longer path: the condition under which the guard bounds the walk |
| TypeWalk.WalkDecl | scripts/gen-config-catalog.ts:317-361 | the walk ends, only adds to the guard, and never leaves the finite set of guard keys |
| TypeSoundness.MissingDecl | scripts/gen-config-catalog.ts:317-403 | whatever the guard holds, a path that is missing is under no view at any depth, unless a member list with other members than properties was overlooked, and never in every reading |
| TypeSoundness.OverlooksDecl | scripts/gen-config-catalog.ts:334-341 | a path whose walk overlooks such a list is in some reading |
| TypeSoundness.FoundDecl | scripts/gen-config-catalog.ts:317-403 | whatever the guard holds, found means the path is present under every view |
| TypeExactness.LacksDecl | scripts/gen-config-catalog.ts:317-403 | a walk the guard did not cut answers found whenever every reading has the path |
| TypeExactness.HasDecl | scripts/gen-config-catalog.ts:317-403 | a walk the guard did not cut answers missing whenever no reading has the path |
| TypeReadings.EveryMeansEvery | scripts/gen-config-catalog.ts:370-376 | the must-have predicate is presence in every reading of the type |
| TypeReadings.SomeMeansSome | scripts/gen-config-catalog.ts:370-376 | the may-have predicate is presence in some reading |
| LookupPath.GuardOnlyWeakens | scripts/gen-config-catalog.ts:319-326 | whatever the guard holds, the answer is the exact one of the types, or unknown from a walk the guard cut, or missing with a member list overlooked |
| LookupPath.MissingUnlessOverlooked | scripts/gen-config-catalog.ts:312-316 | missing is the exact answer exactly where no list with other members than properties was overlooked; otherwise the exact answer is unknown |
| LookupPath.LookupMeansReadings | scripts/gen-config-catalog.ts:223-226 | of every lookup that ends, found is in every reading, missing in none exactly where no member list was overlooked, an uncut unknown in some and not in another |
| LookupPath.GuardsNeverContradict | scripts/gen-config-catalog.ts:322-326 | walks from two different guard sets agree unless one answers unknown |
| TypeUnfolding.RankingIrrelevant | scripts/gen-config-catalog.ts:317-326 | what the walk returns depends on neither the ranking nor the bound that show its end |
| TypeUnfolding.GuardCutsRepeats | scripts/gen-config-catalog.ts:322-326 | on any unfolding, a guarded walk is cut exactly when it would meet a guarded key or one key twice, and otherwise guards exactly the keys met |
| TypeRoutes.DeclWays | scripts/gen-config-catalog.ts:317-403 | whatever the names on a path, a declaration is met with one path length at most as often as the declarations offer ways to it |
| LookupPath.LookupUnfolds | scripts/gen-config-catalog.ts:317-361 | past some depth, a lookup that ends is the guard run over the unfolding |
| TypeGraph.FirstPropertyIsFirst | scripts/gen-config-catalog.ts:334-341 | the search over the members finds nothing exactly when no property has the name, and the first that has it otherwise |
| LookupPath.OwnMemberFound | scripts/gen-config-catalog.ts:334-341 | the name of any property of an interface, whatever it extends, or of an aliased literal is found |
| LookupPath.NameIsMember | scripts/gen-config-catalog.ts:334-366 | without inherited members, a name is found exactly when a property has it, and missing otherwise |
| LookupPath.BoundedEnds | scripts/gen-config-catalog.ts:317-326 | where no cycle of declarations lengthens the path every lookup ends, and is the walk that any ranking bounds |
| LookupPath.LengtheningCycleCanEnd | scripts/gen-config-catalog.ts:334-341 | a cycle that lengthens the path, and on which every lookup ends all the same |
| LookupPath.CutIff | scripts/gen-config-catalog.ts:322-326 | the guard cuts a lookup exactly when the walk without it meets some declaration twice with equally many steps left |
| LookupPath.ReachedOnceIsExact | scripts/gen-config-catalog.ts:319-326 | where no declaration can be met in two ways with equally many steps left, no lookup of that length is cut, and its answer is exact unless it is missing with a member list overlooked |
| LookupPath.RecursionIsExact | scripts/gen-config-catalog.ts:322-326 | an interface that refers to itself is looked up exactly on every path |
| LookupPath.SharedGuardLosesAnswers | scripts/gen-config-catalog.ts:322-326 | types whose lookup the shared guard turns from found into unknown, and a larger guard does not |
| LookupPath.CutCanBeExact | scripts/gen-config-catalog.ts:322-326 | types whose lookup is cut and still exact |
| LookupPath.SelfIndexedAliasNeverEnds | scripts/gen-config-catalog.ts:381-385 | the lookup of any path in an alias indexed by itself never ends |
| LookupPath.IndexSignatureMissing | scripts/gen-config-catalog.ts:334-341 | every name is missing in a type of one index signature, where the exact answer is unknown |
| SchemaPaths.ParsePath | scripts/gen-config-catalog.ts:232-245 | the loops compute the member and element steps of the segments |
| SchemaPaths.PrintsParsed | scripts/gen-config-catalog.ts:232-245 | every string is the print of its parse |
| SchemaPaths.RoundTripIff | scripts/gen-config-catalog.ts:432-451 | a printed path parses back to its steps exactly when no key holds a dot or ends in brackets |
| SchemaPaths.PrintInjective | scripts/gen-config-catalog.ts:432-451 | different paths with plain keys print differently |
| SchemaWalk.ValueSound | scripts/gen-config-catalog.ts:432-451 | every nested path emitted for a value is one the walk follows in the value's compositions |
| SchemaWalk.ValueComplete | scripts/gen-config-catalog.ts:432-451 | every path through assigned properties of object literals, array elements and chained calls is emitted |
| SchemaWalk.KeysAreThePaths | scripts/gen-config-catalog.ts:422-500 | a key is emitted exactly when it is the print of a path the walk follows: through intersections, unions and chained calls, with shorthands at the top level only |
| SchemaWalk.PlainPathsSurvive | scripts/gen-config-catalog.ts:422-500 | with plain keys, a path is emitted exactly when the walk follows it, and parses back to itself |
| SchemaOmissions.EmittedIsNamed | scripts/gen-config-catalog.ts:422-500 | every path the walk follows is one the schema names |
| SchemaOmissions.NamedIsEmitted | scripts/gen-config-catalog.ts:432-451 | a schema without nested shorthands and added fields or parts has every path emitted that it names |
| SchemaOmissions.EmitsAllIff | scripts/gen-config-catalog.ts:432-451 | where no key is named twice, every path the schema names is emitted exactly when no nested object has a shorthand and no chained call adds a field or a part |
| SchemaOmissions.ObjectEmitsAllIff | scripts/gen-config-catalog.ts:437-442 | the same of each object literal by itself, such as the variants of a union |
| SchemaOmissions.WalkEmitsAllIff | scripts/gen-config-catalog.ts:422-500 | the same of the returned strings, where keys are plain |
| SchemaOmissions.NestedShorthandOmitted | scripts/gen-config-catalog.ts:437-439 | the nested shorthand of every two keys is a path of the schema that is not emitted |
| SchemaWalk.UnwrapExpr | scripts/gen-config-catalog.ts:406-410 | the loop strips every wrapper |
| SchemaWalker.Walker.CollectValuePaths | scripts/gen-config-catalog.ts:432-451 | pushes exactly the nested paths of a value and touches nothing else |
| SchemaWalker.Walker.Visit | scripts/gen-config-catalog.ts:452-497 | pushes exactly the keys, composed packages and problems of an expression |
| SchemaWalker.WalkSchemaExpr | scripts/gen-config-catalog.ts:422-500 | the returned keys are exactly the prints of the paths the walk follows, all of them named by the schema, and all it names where nothing is omitted |
| SchemaWalker.NoProblemsIff | scripts/gen-config-catalog.ts:452-497 | the walk reports nothing exactly when it can read every composition that it does not drop |
| SchemaForms.ObjectKeys | scripts/gen-config-catalog.ts:459-470 | the keys of an object literal are its named properties and what lies below their assigned values, and no others |
| SchemaForms.ObjectReports | scripts/gen-config-catalog.ts:459-470 | an object literal reports its properties that are not plain keys, and nothing else |
| SchemaForms.ObjectComposesNothing | scripts/gen-config-catalog.ts:459-470 | an object literal composes no package |
| SchemaForms.NotACall | scripts/gen-config-catalog.ts:453-457 | what is no method call is reported, and has neither keys nor packages |
| SchemaForms.PartsHaveKeys | scripts/gen-config-catalog.ts:471-491 | an intersection or a union has exactly the keys of its elements |
| SchemaForms.ChainedCall | scripts/gen-config-catalog.ts:492-497 | any other call adds no key, package or report to what it is chained to, and is reported where that is no call |
| SchemaForms.NestedObject | scripts/gen-config-catalog.ts:436-444 | the nested paths of an object literal are its assigned properties under the base, and what lies below them |
| SchemaForms.NestedArray | scripts/gen-config-catalog.ts:445-448 | an array has the nested paths of its element, under the base and brackets |
| SchemaForms.NestedChain | scripts/gen-config-catalog.ts:449-450 | a value that is neither an object literal nor an array has the nested paths of what it is chained to |
| SchemaForms.NestedNothing | scripts/gen-config-catalog.ts:433-434 | a value that is no method call has no nested paths |
| SchemaForms.IntersectionComposes | scripts/gen-config-catalog.ts:471-482 | an intersection composes exactly the packages whose `Config` its elements name and those that its schema elements compose |
| SchemaForms.UnionComposes | scripts/gen-config-catalog.ts:483-491 | a union composes exactly what its variants compose |
| SchemaForms.IntersectionReports | scripts/gen-config-catalog.ts:471-482 | an element that is neither a call nor a package's `Config` is reported, a call that is no method call too, and otherwise exactly what the elements report |
| SchemaForms.UnionReports | scripts/gen-config-catalog.ts:483-491 | a union reports exactly what its variants that are calls report |
| SchemaForms.PushedPart | vendor/schemastery/src/index.ts:313-317 | `push` on an intersection or a union adds the keys of its part to those the schema names |
| SchemaForms.FieldSet | vendor/schemastery/src/index.ts:309-312 | `set` on an object adds its field to those the schema names |
| SchemaRejection.ReadsAllIff | scripts/gen-config-catalog.ts:432-497 | a schema is read whole, nested compositions included, exactly when the walk can read it and drops nothing |
| SchemaRejection.RejectsUnseenIff | scripts/gen-config-catalog.ts:412-421 | the documented rejection of what the walk cannot see holds exactly of expressions it cannot read or drops nothing from |
| SchemaRejection.UnreportedIsEmitted | scripts/gen-config-catalog.ts:412-500 | without a report and with nothing dropped, every path the schema names is emitted |
| SchemaRejection.NestedInputsUnseen | scripts/gen-config-catalog.ts:434-450 | a nested shorthand, a nested spread, a nested object that is not a literal and an array of a named composition are lost without a report |
| SchemaRejection.AddedFieldUnseen | vendor/schemastery/src/index.ts:309-312 | a field added by `set` is a path of the schema and is lost without a report |
| SchemaRejection.UnionDropsNamedVariant | scripts/gen-config-catalog.ts:483-491 | a union variant naming a package's schema is dropped without a report, where an intersection composes it |
| SchemaCheck.Fold.FoldComposed | scripts/gen-config-catalog.ts:735-749 | a fold returns the keys of exactly the packages it newly saw, all reached from the start, and reports exactly their unknown compositions |
| SchemaCheck.FoldVisitsParts | scripts/gen-config-catalog.ts:734-750 | from an empty guard the fold visits exactly the packages the schema is composed of, on cyclic compositions too |
| SchemaCheck.CheckSchema | scripts/gen-config-catalog.ts:730-764 | reports exactly the keys of composed packages whose lookup is missing, and exactly the unknown packages |
| SchemaCheck.ReportedIsAbsent | scripts/gen-config-catalog.ts:758-762 | a reported key's path is in no reading of the declared type exactly where the lookup overlooked no member list |
| SchemaCheck.ReportedPathIsAbsent | scripts/gen-config-catalog.ts:758-762 | with plain keys, a reported key is the print of a path of the schema that no reading of the type has, under the same condition |
| SchemaCheck.IndexSignatureReported | scripts/gen-config-catalog.ts:758-762 | every plain key is reported against a type of one index signature, although a reading of it has the key |
| TypeNames.AnswersIffChainEnds | scripts/gen-config-catalog.ts:146-171 | resolving a name ends with an answer exactly when the files followed for it can be ranked, and then the source's recursion gives that answer |
| TypeNames.ResolveIff | scripts/gen-config-catalog.ts:146-171 | a name resolves to what the first file answers that does not pass it on: its own declaration, the import with its imported name and specifier, or nothing, told by the specifier's first character and extension and by aliasing |
| TypeNames.MutualImportsLoop | scripts/gen-config-catalog.ts:152-168 | two files that follow each other's import of a name are asked in turn for ever |
| TypeNames.MutualImportsExample | scripts/gen-config-catalog.ts:152-168 | a package of two files for every name on which resolution never ends |
| PasteClosure.RejectedIsAmbiguous | scripts/gen-config-catalog.ts:674-706 | every reported violation is a real one: the closure is not unambiguous |
| PasteClosure.RoundValid | scripts/gen-config-catalog.ts:671-715 | each round keeps the closure invariant: everything recorded was reached, and everything a recorded declaration mentions is recorded or queued |
| PasteClosure.RoundProgresses | scripts/gen-config-catalog.ts:671-715 | the queue grows only when a name is pasted for the first time |
| PasteClosure.FinishedUnambiguous | scripts/gen-config-catalog.ts:663-717 | an empty queue without violations means every reached name has one meaning |
| PasteReport.FinishedReports | scripts/gen-config-catalog.ts:671-715 | at the end a violation is reported exactly when a mention met in what was pasted is at odds with what was found under its name, each kind by its own condition, or a pasted declaration lacks documentation |
| PasteWorklist.Worklist.TakeFirst | scripts/gen-config-catalog.ts:671-715 | one pass of the loop is one round of the specification |
| PasteWorklist.CollectPastes | scripts/gen-config-catalog.ts:656-717 | the worklist ends; it reports nothing exactly when the closure is unambiguous; then every reached mention is pasted or a reference, never both, and resolves to what is recorded, and the configuration type is pasted first; the violations are exactly those earned |
| Registry.CheckManifest | scripts/publish-npm-baseline.ts:366-375 | a manifest is accepted exactly when it has packages and no name twice |
| Publication.ReleaseSafety | scripts/publish-npm-baseline.ts:625-654 | over all interleavings with crashes and reruns, if `latest` of the entry package came to point at this version then every package is there with the manifest integrity and the release tag |
| Publication.SafetyIff | scripts/publish-npm-baseline.ts:625-654 | that safety holds for a bundle exactly when its dist-tag is not `latest` or its entry package is last |
| Publication.UnsafeRun | scripts/publish-npm-baseline.ts:376-387 | for every other bundle, a run from the empty registry that violates it |
| Publication.EntryFirstIsUnsafe | scripts/publish-npm-baseline.ts:376-387 | a bundle that loads, under `latest` with the entry package first, and a run that leaves `latest` on it with a package missing |
| Publication.IntegrityNeverChanges | scripts/publish-npm-baseline.ts:630-650 | as npm refuses to publish over a version and other publishers never rewrite one, no action changes the integrity of a published version |
| Convergence.CompleteRun | scripts/publish-npm-baseline.ts:625-654 | one uninterrupted run succeeds exactly when no integrity conflicts and the entry package at this version is in the bundle or the registry or is already `latest`, and ends in the completed registry |
| Convergence.CompletedSpelled | scripts/publish-npm-baseline.ts:625-654 | in the completed registry every package of the bundle has its integrity, its release dist-tag and `latest` of the entry package are at this version, and every other entry is as it was |
| Convergence.CompletableSpelled | scripts/publish-npm-baseline.ts:625-654 | the condition for success, by the registry's entries |
| Convergence.InterruptionsConverge | scripts/publish-npm-baseline.ts:625-654 | whatever interrupted runs did, the completed registry is still the one of the start |
| Convergence.RerunsReachOneState | scripts/publish-npm-baseline.ts:625-654 | after any interruptions a complete run reaches that registry, and a further run leaves it alone |
| RegistryPublication.RegistryPublication.EnsureDistTag | scripts/publish-npm-baseline.ts:755-764 | a tag that already points at the version is left without a write; otherwise it is added |
| RegistryPublication.RegistryPublication.PublishPackage | scripts/publish-npm-baseline.ts:630-650 | one package's requests are the protocol's steps, and a package already placed causes no write |
| RegistryPublication.RegistryPublication.VerifyRemote | scripts/publish-npm-baseline.ts:662-684 | succeeds exactly when every package is there with its integrity and tag |
| RegistryPublication.RegistryPublication.Publish | scripts/publish-npm-baseline.ts:625-654 | succeeds exactly when no integrity conflicts and the entry package at this version is in the bundle or the registry or is already `latest`, leaves the completed registry, and writes nothing when it already is |
| PackageGraph.SortAscends | scripts/package-graph.ts:64-66 | sorting a layer keeps its packages and puts them in display order |
| TopoSort.ByShortKeepsUnique | scripts/package-graph.ts:60 | the packages sorted are the ones given, in their order, exactly when no short name repeats |
| TopoSort.TopoSort | scripts/package-graph.ts:59-75 | succeeds exactly when every package is well-founded, returning the packages by depth, group rank, group and name; the error lists exactly the packages that are not; without repeated names this holds of the input itself |
| PackageOrder.WellFoundedIff | scripts/package-graph.ts:63-67 | the sort throws exactly for a cycle or a dependency outside the set |
| PackageOrder.DepthIsLongestChain | scripts/package-graph.ts:63-73 | a package's layer is the length of its longest chain of dependencies |
| PackageOrder.DependenciesFirst | scripts/package-graph.ts:64-73 | each package comes after all its dependencies |
| PackageOrder.OrderIff | scripts/package-graph.ts:63-83 | of two packages in the output the one of smaller depth stands first; at equal depth the one whose group the list names first, a listed group before an unlisted one, unlisted groups by collation, and one group's packages by the short name |
| PackageOrder.OrderIndependentOfInput | scripts/package-graph.ts:59-83 | the result depends on the set of packages and not on their input order |
| ProjectFaces.FaceIsNearestNamed | scripts/project-reference-faces.ts:88-103 | the face is that of the nearest named config along `extends`, on cyclic chains too |
| ProjectFaces.ContainingIsInnermost | scripts/project-reference-faces.ts:65-71 | the split root found is the innermost split directory holding the target, and one is found exactly when one exists |
| FaceRules.FaceIsInherited | scripts/project-reference-faces.ts:88-103 | the face is settled by the first config up the `extends` chain named `tsconfig.host.json` or `tsconfig.client.json`, or at the root as `tsconfig.base.json`, which is Host, or `tsconfig.base.client.json`, which is Client; without one there is none |
| FaceRules.ContainingIff | scripts/project-reference-faces.ts:65-71 | the split root found is the innermost package directory around the target that holds both leaves |
| FaceRules.ReportedIff | scripts/project-reference-faces.ts:30-63 | the report holds exactly the references that break the rule, of configs that the aggregates lead to by references that keep it, with the project entered and the face of the config |
| FaceRules.EmptyReportIff | scripts/project-reference-faces.ts:22-63 | no violation exactly when every config that the root's two leaf configs lead to refers, into a split project, only to the leaf of its own face |
| FaceRules.HostBaseObeys | scripts/project-reference-faces.ts:88-103 | a library that extends the host base and refers to a host leaf is not reported |
| FaceTraversal.JudgeReferences | scripts/project-reference-faces.ts:40-59 | the references of one config add exactly their violations and exactly the permitted targets |
| FaceTraversal.CollectViolations | scripts/project-reference-faces.ts:30-63 | the worklist ends; it reports exactly the violations earned by references of configs reachable through permitted references, and none exactly when every reachable reference obeys |
| FaceTraversal.EmptyIffAllObey | scripts/project-reference-faces.ts:30-63 | no violation exactly when every reference reachable from the two aggregates obeys the rule |
| FaceIsolation.IsolatedIff | scripts/project-reference-faces.ts:22-28 | with an empty report, every reference from an aggregate names that aggregate's leaf exactly when every config it reaches that refers into a split project has its face |
| FaceIsolation.MixedIsUnreported | scripts/project-reference-faces.ts:38-57 | a repository without violations in which the host aggregate reaches a client leaf |
| FaceTraversal.NothingPruned | scripts/project-reference-faces.ts:43-57 | without violations the pruning hid no reachable config |
| RescopePieces.RewritesSelected | scripts/rescope-vendor.ts:518-520 | one pass rewrites exactly the tokens taken from left to right, each consuming both its quotes |
| RescopeSegments.RewriteLine | scripts/rescope-vendor.ts:514-522 | the loop over the patterns applies the quoted-token and the multi-line YAML rewrite of each |
| RescopeSegments.YamlBySegments | scripts/rescope-vendor.ts:506-507 | the multi-line YAML pattern, whose white space may reach over line terminators, rewrites each segment between them as if alone |
| RescopeSegments.WholeBySegments | scripts/rescope-vendor.ts:514-522 | all patterns together rewrite each segment of a line as if alone |
| RescopeSegments.WholeFencesKept | scripts/rescope-vendor.ts:535-549 | rewriting a line of any segments never makes or unmakes a Markdown fence |
| RescopeLine.TokensArePieces | scripts/rescope-vendor.ts:502-505 | matching the token pattern on characters is the rewrite of the pieces between quotes |
| RescopeLaws.RewriteAllReplaces | scripts/rescope-vendor.ts:514-522 | all renames together replace the name of every selected token and nothing else |
| RescopeHead.YamlIsHead | scripts/rescope-vendor.ts:506-507 | the YAML name pattern touches only the text before the first quote |
| RescopeHead.HeadUndoIff | scripts/rescope-vendor.ts:506-507 | undoing the YAML rewrite restores a line's head exactly when it did not name a target |
| RescopeText.LineIdempotentIff | scripts/rescope-vendor.ts:514-522 | a segment is rewritten once and for all exactly when no two tokens of one name share a quote |
| RescopeText.LineUndoIff | scripts/rescope-vendor.ts:495-522 | the reverse rewrite restores a segment exactly when its head names no target and every target token on it is hidden: its opening quote closes a token rewritten to the same target |
| RescopeFile.Rewrite | scripts/rescope-vendor.ts:535-553 | the loop rewrites the eligible lines of the file and counts the changed ones |
| RescopeFile.FileIdempotentIff | scripts/rescope-vendor.ts:535-553 | a second pass over a file changes nothing exactly when no segment of an eligible line shares a quote between two tokens of one name |
| RescopeFile.FileUndoIff | scripts/rescope-vendor.ts:535-553 | the reverse pass restores a file exactly when the segments of every eligible line have no target names but hidden ones |
| RescopeFile.RenamesWellFormed | scripts/rescope-vendor.ts:46-56 | the repository's table of renames meets the conditions of these laws |
| RescopeTokens.TokenRewritten | scripts/rescope-vendor.ts:502-522 | between two single quotes, two double quotes, or two backticks, a name of the table with any subpath free of white space has the name replaced, and the text around it is kept |
| RescopeTokens.OtherTextKept | scripts/rescope-vendor.ts:502-522 | any other text between two quotes, or between two different ones, is kept |
| RescopeTokens.LineOfTokens | scripts/rescope-vendor.ts:514-522 | on a line of quoted texts whose gaps are no names, every text is renamed by itself |
| RescopeLines.ScalarRewritten | scripts/rescope-vendor.ts:506-522 | after indentation, an optional dash, `name:` and blanks, a bare name is replaced if only blanks or a comment follow |
| RescopeLines.OtherLineKept | scripts/rescope-vendor.ts:506-522 | a line without quotes is kept unless it is such a scalar |
| RescopeLines.LinesApart | scripts/rescope-vendor.ts:506-553 | a newline, carriage return, line or paragraph separator keeps what is before it from what is after it |
| RescopeLines.LineByLine | scripts/rescope-vendor.ts:535-553 | a line is kept in Markdown if it opens with a fence, or stands outside of every fence of a file whose prose does not follow; every other line becomes what it becomes alone |
| RescopeTokens.ShippedTokenRewritten | scripts/rescope-vendor.ts:46-56 | each name of the shipped table is so replaced, in each of the three quotes |
| RescopeTokens.ManifestNameRewritten | scripts/rescope-vendor.ts:505 | a name in double quotes, as in a manifest, is replaced |
| RescopeOrder.ShippedListsWellFormed | scripts/rescope-vendor.ts:495-522 | so does whatever list of its renames the sort and the skips leave |
| RescopeOrder.TextInAnyOrder | scripts/rescope-vendor.ts:495-522 | the order of the renames makes no difference to any file |
| RescopeOrder.SortedRunsUndoIff | scripts/rescope-vendor.ts:495-553 | a reverse run with its own order restores a file under the same condition |
| RescopeOrder.SharedQuoteNotSettled | scripts/rescope-vendor.ts:514-522 | a line that the shipped table rewrites a second time |
| Splice.SpliceAll | scripts/project-doc-site.ts:187-190 | splicing disjoint ranges last first is their simultaneous substitution in the source |
| Splice.SortSeparates | scripts/project-doc-site.ts:188 | whatever order replacements are collected in, the sort puts disjoint ranges in their one right-to-left order |
| Splice.OutsideKept | scripts/project-doc-site.ts:187-190 | every character outside the ranges is kept, moved by the growth before it |
| Splice.RangeReplaced | scripts/project-doc-site.ts:187-190 | every range holds exactly its replacement |
| MarkdownScan.SkipWhitespace | scripts/markdown.ts:84-88 | stops at the first offset without white space |
| MarkdownScan.LabelEnd | scripts/markdown.ts:90-104 | the depth loop finds the bracket that closes the first opening one, past escapes |
| MarkdownScan.EndsAfterText | scripts/markdown.ts:94-102 | a stretch of text is scanned whole exactly when it is balanced |
| MarkdownScan.DestinationRange | scripts/markdown.ts:106-140 | the scanner's loops compute the recursive reading of label, separator and destination, with the same errors |
| MarkdownScan.SeparatorIff | scripts/markdown.ts:106-125 | a definition's separator is its first colon after the label; a link or an image needs its parenthesis right there; each has its own error |
| MarkdownScan.ErrorsIff | scripts/markdown.ts:106-140 | which of the errors the scanner answers, and when |
| MarkdownNodes.DestinationFound | scripts/markdown.ts:106-140 | with a balanced label, the range returned is the destination's exactly when the destination fits its form, for links, images and definitions |
| MarkdownNodes.InlineDestinationExact | scripts/markdown.ts:106-140 | for a link or image the range returned is the destination's if and only if label and destination are balanced |
| MarkdownNodes.ReferenceBalanced | scripts/markdown.ts:90-104 | a balanced reference inside a label keeps the label balanced |
| MarkdownNodes.MisreadInputs | scripts/markdown.ts:90-140 | two inputs the grammar allows and the scanner misreads |
| MarkdownRewrite.MarkdownDestination | scripts/markdown.ts:143-152 | a node's range is moved by the node's offset |
| MarkdownRewrite.Visit | scripts/project-doc-site.ts:155-184 | the visit collects, outside in, what the scanner finds for each rewritten reference, or the first error |
| MarkdownRewrite.Collects | scripts/project-doc-site.ts:155-184 | where the scanner is right, what is collected is a permutation of the edits of the written text |
| MarkdownRewrite.CollectsIff | scripts/project-doc-site.ts:155-184 | collecting succeeds exactly when the destination of every reference to rewrite is located, at every depth; otherwise the error is the one of the first that is not, outside in |
| MarkdownRewrite.ReferenceSpelled | scripts/markdown.ts:106-140 | how a link, an image and a definition are written, label, destination and title |
| MarkdownRewrite.RewrittenAt | scripts/project-doc-site.ts:155-184 | rewriting changes the destinations that the rewriter names, at every depth, and nothing else |
| MarkdownRewrite.RewriteMarkdown | scripts/project-doc-site.ts:150-192 | the published text is the text of the tree with the new destinations, nested references included; it fails exactly when a destination to rewrite is not located, with the first such error |
| DigestFraming.DecodesExactlyFrames | scripts/client-build-environment.ts:263-269 | the decoder reads a stream as a list of files exactly when the list feeds that stream |
| DigestFraming.FrameInjective | scripts/client-build-environment.ts:263-269 | two lists of files of any length feed the same bytes exactly when they are equal |
| DigestFraming.FieldSpelled | scripts/client-build-environment.ts:263-269 | a length is spelled in ASCII digits without leading zeros and ends at a colon |
| DigestFraming.StreamIdentifiesArtifacts | scripts/client-build-environment.ts:256-270 | two sets of artifacts, listed in one order, feed the same bytes exactly when they are the same set |
| DigestFraming.ClientArtifactDigest | scripts/client-build-environment.ts:256-272 | the updates feed the framed files to the hash; an empty build is an error |
| DigestFraming.RecordMatchesIffUnchanged | scripts/client-build-environment.ts:246-251 | as far as the hash separates the two streams, a record is accepted exactly when the artifacts are unchanged |
| Words.TrimCollapse | scripts/jsdoc.ts:45 | collapsing and trimming leaves the words separated by single spaces |
| JsDoc.BlocksWords | scripts/jsdoc.ts:46-77 | the blocks hold the words of the lines, in order |
| JsDoc.DocKeepsWords | scripts/jsdoc.ts:60-79 | the description before link unwrapping holds exactly the words of the lines before the first tag |
| JsDocParser.CleanLineWords | scripts/jsdoc.ts:33-37 | cleaning a line removes at most one leading star from its words |
| JsDocRules.StarredLineCleaned | scripts/jsdoc.ts:37 | a starred line is what stands after its star and one white space, without its end |
| JsDocRules.PlainLineCleaned | scripts/jsdoc.ts:37 | a line without a star is its text without the white space around it |
| JsDocRules.CommentLines | scripts/jsdoc.ts:33-37 | the delimiters go and the lines between them are cleaned |
| JsDocRules.UndelimitedLines | scripts/jsdoc.ts:33-37 | without delimiters nothing is taken off |
| JsDocRules.BlankIff | scripts/jsdoc.ts:67 | a line is blank exactly when it is all white space |
| JsDocRules.BulletIff | scripts/jsdoc.ts:68 | a bullet is a dash and white space at the start of a line |
| JsDocRules.TagIff | scripts/jsdoc.ts:61-65 | a tag line starts with `@` after white space |
| JsDocRules.ModeTagIff | scripts/jsdoc.ts:64 | a mode tag is `@mode` at the end of a word |
| JsDocRules.ModeIff | scripts/jsdoc.ts:61-63 | a line names a mode exactly when it is `@mode`, white space, and one of the five names alone |
| JsDocRules.WordsBySpace | scripts/jsdoc.ts:45 | the words of a text are its stretches without white space |
| JsDocParser.Buffers.FlushPara | scripts/jsdoc.ts:46-59 | flushing turns everything read so far into the blocks of its stretches; flushing empty buffers changes nothing |
| JsDocParser.Buffers.ReadProse | scripts/jsdoc.ts:65-76 | each prose line keeps the buffers standing for all lines read, and never fills the paragraph buffer beside the list buffers |
| JsDocParser.ParseLines | scripts/jsdoc.ts:60-77 | the loop computes the blocks of the lines before the first tag, the last named mode, and whether any mode tag stands |
| JsDocParser.ParseJsDoc | scripts/jsdoc.ts:32-80 | the whole parse, with its words those of the prose lines in order |
| WorkerPool.ReachableConsistent | scripts/publint-all.ts:204-213 | in every interleaving claimed indices are distinct, each claimed target has a worker or its result, and results belong to their targets |
| WorkerPool.CounterCountsClaims | scripts/publint-all.ts:205-211 | the counter is the number of claims made |
| WorkerPool.LintsOnce | scripts/publint-all.ts:207-212 | in every interleaving each target below the number of claims was started by a worker once, and no other index ever |
| WorkerPool.NeverHangs | scripts/publint-all.ts:207-214 | some step is possible exactly until all workers returned |
| WorkerPool.ResultsPersist | scripts/publint-all.ts:212 | a stored result is never written again |
| WorkerPool.RunsAreBounded | scripts/publint-all.ts:207-214 | every interleaving takes its steps out of one budget of two per target and one per worker |
| WorkerPool.CompleteHasResults | scripts/publint-all.ts:207-221 | when all workers returned, every target has its result and was linted once, if and only if there was a worker or nothing to lint |
| PoolLimit.ConcurrencyIff | scripts/publint-all.ts:62-75 | with something to lint, a setting is accepted exactly when it is the plain numeral of a positive safe integer; the worker count is within that limit, or the cores without one, and the targets, and zero exactly when there is nothing to lint |
| PoolLimit.DecimalSpelled | scripts/publint-all.ts:67-69 | a numeral is its decimal digits without leading zeros |
| WorkerPool.RunAll | scripts/publint-all.ts:204-222 | in any interleaving the results come back in input order; the missing-result error needs a pool without workers |

## Left out

- RunGates.RunGates: does not model an executor promise that rejects, the observer, or console output; the gate lists themselves are data.
- TypeWalk.WalkDecl: takes name resolution (`declForTypeName`, `findExportedTypeDecl`) as data and reads `TypeOperator` nodes as `readonly`, because line 380 also passes `keyof` through.
- LookupPath.ReachedOnceIsExact: gives one direction only, because whether a cut loses the answer depends on the answers of the other branches; `LookupPath.CutCanBeExact` is a cut that does not.
- LookupPath.LookupMeansReadings: is stated for lookups that end; having no cycle that nets more indexed accesses than property hops is sufficient for that, and not necessary (`LookupPath.LengtheningCycleCanEnd`).
- SchemaOmissions.EmitsAllIff: needs keys that are named once, because a path left out at one place may be emitted at another; the keys that a spread or an identifier brings are not known, and not counted as named.
- PasteWorklist.CollectPastes: is stated for packages in which the import chain of every reached name ends, because the source's resolution does not return on the others; a missing file, which stops the generator, is excluded with them.
- SchemaCheck.CheckSchema: takes the parsed packages as data and the lookup as a function that answers as `LookupPath.LookupPath` on the keys it is asked for; classifying packages and finding their schema expressions is not modelled.
- SchemaPaths.RoundTripIff: keys are strings; the text of a computed or numeric property name is taken as given.
- Publication.ReleaseSafety: does not model the network, npm's own checks, prompts, or the local verification of tarballs.
- FaceTraversal.CollectViolations: leaves violations as records in traversal order; sorting their messages and reading JSON are not modelled.
- RescopeFile.Rewrite: takes the patterns not skipped for a file as its list of renames.
- MarkdownRewrite.RewriteMarkdown: takes the parsed tree and node positions as those of the written text, and the new destination of each reference as an arbitrary function.
- Splice.SpliceAll: states the result for disjoint ranges only; overlapping ranges come from labels the scanner misreads.
- DigestFraming.StreamIdentifiesArtifacts: needs the paths of the two sets to differ in their UTF-8 bytes, which lone surrogates would break.
- JsDocParser.ParseJsDoc: stops before `{@link}` unwrapping and does not model `parseTags`.
- PoolLimit.ConcurrencyIff: takes the value of the environment variable and the number of cores as data.
- `exactEditState` and the exact-edit table of the rescope: counting occurrences, independent of the rewrite.
- Child processes, files, git, HTTP, tar and the SHA functions: environment steps, abstract maps or arbitrary functions.
- The client build environment filters, small validators, diagnostic wording, and the generators that mostly read the TypeScript checker.
