# A verified model of the Musi developer harness

The harness around the Musi repository checks and generates: it compiles a tree
of lint policies into ESLint's flat configuration, walks syntax trees and
dependency graphs, reads backlog notes and keeps generated documentation in
step. Most of it is configuration, but some parts are real algorithms whose
promise is not visible in any one function. This project models those parts in
Dafny and proves what they promise, for all inputs.

| module | what it models |
|---|---|
| `Glob`, `RestrictedSyntax`, `FlatConfig`, `PolicyTree`, `PolicyMeaning`, `PolicyOrder`, `RestrictedSyntaxBuilder`, `PolicyAcceptance` | the compiler from a tree of file families to a flat list in which the last match wins: a concrete glob matcher, the values each step computes, ESLint's reading of the list, the laws of the tree, the same steps as the source's loops, and which declarations are accepted, in their own terms |
| `EffectExecution`, `EffectEdges` | the search for a synchronous way into an effect callback, over a visited set that is shared on one kind of edge and copied on the others, and what its edges are in the syntax |
| `Trails`, `Exploration`, `NestedWrites`, `NestedPayloads` | what leads where along a relation, the bookkeeping of memoised walks, the walk over nested write payloads, and which payloads those are |
| `DependencyClosure`, `DependencyListing` | the worklist that collects production packages and re-expands workspace packages on every request, and its list by name and version |
| `ExclusivePaths` | the claim that two nodes of a catch block never run on one path, against a semantics of executions |
| `CollectionBound` | the upper bound on a collection's length, against a semantics of values |
| `ProcedureChain`, `ProcedureMeaning` | the cached analysis of procedure chains through aliases, and what its answers say of the chains |
| `VitestAliases`, `VitestNames` | the fixed-point loop that collects names for vitest's mocking functions, and which names those are |
| `SyntaxTree`, `TransactionTracking`, `TransactionClients` | a stack machine driven by a traversal, against what the tree itself says |
| `SocketTrace`, `SocketListeners`, `SocketVerdicts`, `SocketPairs` | the socket cleanup rule: the events of a traversal and what they mean, the rule as a class that stays in step with them, which calls are reported in the end, and the same by object, event and handler |
| `Text`, `Stretches`, `BacklogStatus`, `StatusWords`, `Sorting`, `BacklogCatalog`, `BacklogNotes` | the status vocabulary and the catalog of backlog notes, and what both say of the texts and paths themselves |
| `EffectiveLines` | the line count that skips blank and comment-only lines |
| `RecipeSplice`, `RecipeText` | the generator that splices recovery recipes between markers, and a run of it read off the texts |
| `Wrappers`, `Sequences` | options and results, and what sequences have in common |

Code that works by changing state is modelled by classes and loops, each proved
against a function or predicate of its inputs; the properties are then proved
about those. Where a specification computes something that the code computes in
the same way, a key, a kind, a set of edges, its meaning is proved as well, in
terms of the inputs alone and without naming the computation. File contents,
manifest resolution, the scope analysis behind an identifier and a locale's
order on names are parameters of the models.

Four promises hold only under a condition, and the condition is proved to be
exact: the dependency worklist ends iff the workspace packages form no cycle;
the vitest alias loop ends iff no name is bound to two methods; a catalog's
rollups account for every note iff no pack directory is without an immediate
member; and the alias cache of procedure chains is invisible iff every cycle of
aliases is harmless: each alias agrees with the next about being a procedure
with an output schema, or none applies `.output` and of any two neighbours one
is rooted in a procedure's name. For each a concrete failing input is given as a lemma.

`dafny verify dfyconfig.toml` checks the whole project.

## Model

| member | source | states |
|---|---|---|
| PolicyAcceptance.AcceptedExactlyWhenWellFormed | eslint-config/restricted-syntax-builder.js:428-450 | Main result: a declaration is accepted exactly when it is well formed, said of its own fields alone: the order lists every registered id once, ids are distinct, every node's `within` leads up to a root through policies, each adds or removes only ids that are registered and not yet added, or added, every non-global exception lists only patterns without magic characters, each of which, as a path, is inside its parent, and any two nodes are one around the other or provably apart |
| PolicyAcceptance.ReportsWhatApplies | eslint-config/restricted-syntax-builder.js:428-450 | Main result: for every accepted declaration and every path inside some node, the emitted list reports exactly the ids that a policy around the path adds and no exception around it removes, in `order`, each with its registered selector; with none left the rule is off |
| PolicyAcceptance.OutsideGetsNothing | eslint-config/restricted-syntax-builder.js:428-450 | A path inside no node gets no entry |
| PolicyAcceptance.RefusalNamesTheFault | eslint-config/restricted-syntax-builder.js:428-450 | A refused declaration fails for the first thing that is wrong with it: the order, an id used twice, the tree or the selectors, an exception that does not narrow its parent (the failure names one that does not), or two nodes that overlap (it names such a pair) |
| PolicyAcceptance.NarrowingMeansNarrows | eslint-config/restricted-syntax-builder.js:314-325 | The narrowing loop accepts exactly when every non-global exception lists only patterns without magic characters and each of them, read as a path, is inside its parent: matched by every node around it and ignored by none |
| PolicyAcceptance.ListedPathsAreInside | eslint-config/restricted-syntax-builder.js:314-325 | In an accepted declaration every path that a non-global exception lists and does not itself ignore is inside that exception |
| PolicyAcceptance.ExclusionMeansKeepsOut | eslint-config/restricted-syntax-builder.js:197-217 | Two families are provably disjoint, seen from the first, if and only if every pattern it lists is ignored by the other's node or one around it, or it lists only paths and none of them is inside the other, or any two patterns of theirs part ways before a magic character |
| PolicyAcceptance.FamiliesMeanFitting | eslint-config/restricted-syntax-builder.js:295-305 | All families can be resolved exactly when the nodes form a forest and every node's ids can be added or removed where it stands |
| PolicyAcceptance.ChainIsAround | eslint-config/restricted-syntax-builder.js:238-257 | A node's chain holds exactly the nodes around it |
| PolicyAcceptance.FamilyIsInside | eslint-config/restricted-syntax-builder.js:295-305 | A family matches exactly the paths that every node around it lists and none ignores, and its ignores are all of theirs |
| PolicyAcceptance.DeclaredExactly | eslint-config/restricted-syntax-builder.js:90-168 | A node is accepted on its own exactly when it has files, has something to add or remove, and negates no pattern |
| PolicyMeaning.FlatListMeansTree | eslint-config/restricted-syntax-builder.js:428-450 | Main result: for every accepted declaration and every path some family matches, the matching families are one ancestor chain whose only possible exception is its end, and last-match-wins over the emitted flat list reports exactly the ids added along that chain minus those its exception removes, in `order`; with no id left the rule is off |
| PolicyMeaning.UnmatchedPathsGetNothing | eslint-config/restricted-syntax-builder.js:428-450 | A path no family matches gets no entry from the flat list |
| PolicyMeaning.DeepestDecides | eslint-config/restricted-syntax-builder.js:402-450 | Folding the overriding entries of the depth-sorted list leaves the decision of the deepest matching family, although entries of shallower families also match |
| PolicyMeaning.ResolutionIsFold | eslint-config/restricted-syntax-builder.js:402-416 | Resolving a path against the emitted entries is overriding along exactly the families that match it: an `off` entry changes the severity but keeps earlier options, an entry with options replaces them |
| PolicyMeaning.FoldOfLineage | eslint-config/restricted-syntax-builder.js:402-416 | Along one lineage the override ends in the last family's own rule, also when an exception switches the rule off after ancestors reported |
| PolicyMeaning.ComposeMeaning | eslint-config/restricted-syntax-builder.js:264-288 | A composed id is one some policy of the chain adds and the exception does not remove; ids stay registered and never repeat |
| PolicyMeaning.FamilySelectors | eslint-config/restricted-syntax-builder.js:295-305 | A resolved family carries exactly the ids added minus removed along its chain, each once |
| PolicyMeaning.SortedIdsMeaning | eslint-config/restricted-syntax-builder.js:402-416 | Sorting ids by `order` loses and invents none and puts them in strictly increasing position |
| PolicyMeaning.OrderMeaning | eslint-config/restricted-syntax-builder.js:349-357 | The order check accepts exactly the lists of registered ids without repetition |
| PolicyMeaning.CoveredMeaning | eslint-config/restricted-syntax-builder.js:349-357 | The coverage check accepts exactly when every registered id is ordered |
| PolicyMeaning.AcceptanceMeaning | eslint-config/restricted-syntax-builder.js:428-450 | Acceptance of a declaration gives all that the main results use: a valid index, one family per node, pairwise compatibility, a covering order |
| PolicyTree.DisjointnessIsSound | eslint-config/restricted-syntax-builder.js:197-217 | When two families are declared disjoint, by ignores, literal paths or static prefixes, no path is in both, whatever their globs |
| PolicyTree.UnambiguousMeaning | eslint-config/restricted-syntax-builder.js:333-343 | The pairwise check accepts exactly when every two families are nested or provably disjoint |
| PolicyTree.AncestorsMatch | eslint-config/restricted-syntax-builder.js:184-189 | A family is a subset of each of its ancestors: what it matches, every family up its chain matches |
| PolicyTree.ChainStep | eslint-config/restricted-syntax-builder.js:238-257 | A node's chain is its parent's chain followed by the node, and a parent is always a policy |
| PolicyTree.ChainPrefixes | eslint-config/restricted-syntax-builder.js:238-257 | Every prefix of a chain is the chain of its last node; only the end of a chain can be an exception |
| PolicyTree.MatchingIsStrict | eslint-config/restricted-syntax-builder.js:428-450 | Sorted by depth, the families that match one path have strictly increasing depths, so the sort leaves no tie to authoring order |
| PolicyTree.MatchingIsLineage | eslint-config/restricted-syntax-builder.js:428-450 | The matching families of the sorted list are, in order, the lineage of the deepest match |
| PolicyTree.SortSorts | eslint-config/restricted-syntax-builder.js:447 | The depth sort is a sorted permutation of the families |
| PolicyOrder.AuthoringOrderIsIrrelevant | eslint-config/restricted-syntax-builder.js:428-450 | Permuting the authored policies and exceptions changes neither acceptance nor, for any path, the resolved entry down to the order of its selectors |
| PolicyOrder.ReorderingKeepsAcceptance | eslint-config/restricted-syntax-builder.js:428-450 | No reordering turns an accepted declaration into a refused one |
| FlatConfig.IntersectionIsConjunction | eslint-config/restricted-syntax-builder.js:372-395 | The emitted `files` list, an OR of ANDs after redundant ancestor patterns were dropped, matches exactly the paths that every file group of the chain matches |
| FlatConfig.ProductMeaning | eslint-config/restricted-syntax-builder.js:382-395 | Distributing groups into combinations keeps the meaning: some combination matches entirely iff every group has a matching pattern |
| FlatConfig.DropRedundantMeaning | eslint-config/restricted-syntax-builder.js:372-376 | Dropping the ancestor patterns that a literal own path satisfies changes no match |
| FlatConfig.EmittedEntriesAreLean | eslint-config/restricted-syntax-builder.js:372-395 | No emitted entry is a list of one pattern, and none holds, behind a literal path, a pattern that the path satisfies anyway |
| FlatConfig.EmittedEntryMatchesFamily | eslint-config/restricted-syntax-builder.js:402-416 | The emitted entry, read with ESLint's file and ignore rules, matches the same paths as the family |
| FlatConfig.PositiveIgnores | eslint-config/restricted-syntax-builder.js:90-98 | With positive patterns only, ESLint's ordered ignores are plain "some pattern matches" |
| FlatConfig.NegatedIgnoreBreaksTheReading | eslint-config/restricted-syntax-builder.js:90-98 | Why negated patterns are refused: any family on a literal path that ignores the path and then takes the ignore back does not match it, while the entry emitted for that family does |
| Glob.MatchStartsWithStaticPrefix | eslint-config/restricted-syntax-builder.js:170-173 | Whatever a glob matches starts with the part before its first magic character, braces, stars and question marks included |
| Glob.LiteralMatchesOnlyItself | eslint-config/restricted-syntax-builder.js:176-178 | A pattern without magic characters, read by the modelled matcher, matches exactly itself |
| RestrictedSyntax.IndexIsValid | eslint-config/restricted-syntax-builder.js:223-231 | A successful index maps each id to its own node and no id occurs twice |
| RestrictedSyntaxBuilder.BuildIndex | eslint-config/restricted-syntax-builder.js:223-231 | The indexing loop fails on the first repeated id and otherwise gives the index |
| RestrictedSyntaxBuilder.BuildChain | eslint-config/restricted-syntax-builder.js:238-257 | The climbing loop gives the chain or the failure of a missing, non-policy or cyclic parent, and ends on cycles |
| RestrictedSyntaxBuilder.ApplyPolicy | eslint-config/restricted-syntax-builder.js:264-288 | The push loop applies a policy or fails on the same id as the specification whose meaning `ComposeMeaning` gives |
| RestrictedSyntaxBuilder.ApplyException | eslint-config/restricted-syntax-builder.js:264-288 | The splice loop removes exactly the listed ids, or fails on the first that is not applied |
| RestrictedSyntaxBuilder.ComposeSelectorIds | eslint-config/restricted-syntax-builder.js:264-288 | The loop over the chain composes the ids or stops at the first failure |
| RestrictedSyntaxBuilder.BuildFamily | eslint-config/restricted-syntax-builder.js:295-305 | Chain, ids, file groups and ignores of one node, with the first failure on the way |
| RestrictedSyntaxBuilder.ResolveFamilies | eslint-config/restricted-syntax-builder.js:428-436 | All families in authored order, or the first failure |
| RestrictedSyntaxBuilder.CheckPairs | eslint-config/restricted-syntax-builder.js:333-343 | The nested loop over pairs finds the first incompatible pair, or none |
| RestrictedSyntaxBuilder.IntersectGroups | eslint-config/restricted-syntax-builder.js:382-395 | The reassigned list of combinations ends as the list whose meaning `IntersectionIsConjunction` gives |
| RestrictedSyntaxBuilder.EmitConfig | eslint-config/restricted-syntax-builder.js:402-416 | One family's entry, its `files` distributed by `IntersectGroups`: what `EmittedEntryMatchesFamily` speaks of |
| RestrictedSyntaxBuilder.EmitConfigs | eslint-config/restricted-syntax-builder.js:446-449 | One entry per family of the sorted list, in its order: what `ResolutionIsFold` speaks of |
| RestrictedSyntaxBuilder.Build | eslint-config/restricted-syntax-builder.js:428-450 | The whole build fails exactly when the specification does, with the same failure, and otherwise emits the configs the main results speak of; which declarations fail is what `PolicyAcceptance.AcceptedExactlyWhenWellFormed` says of their fields |
| EffectEdges.AnswerMeansRunsInEffect | eslint-rules/effect-misuse-execution.js:213-219 | Main result: the answer about a call is true exactly when the function around it runs as part of an effect, said of the syntax alone: it is the first argument of an effect call, or is called where it stands or by name, or handed in place or by name to an unbound scheduler or to a non-computed `then`, `catch` or `finally`, from within a function of which the same is true |
| EffectEdges.EdgesAreExecutions | eslint-rules/effect-misuse-execution.js:45-180 | The search has an edge from one function to another exactly when the first is called or scheduled, in place or through a reference to its variable, directly within the second |
| EffectEdges.ExecutedRunsToo | eslint-rules/effect-misuse-execution.js:97-180 | A function called or scheduled from within a function that runs in an effect runs in that effect too, inline timers and promise continuations included |
| EffectEdges.NearestMeansWithin | eslint-rules/effect-misuse-execution.js:25-38 | The nearest function is the one around the node with no other in between |
| EffectExecution.IsSynchronouslyInsideEffect | eslint-rules/effect-misuse-execution.js:213-219 | Main result: true exactly when a walk along containing-invocation, continuation-registration and direct-call edges leads from the function around the call to an effect callback, cyclic call graphs included; which edges there are is what `EffectEdges.EdgesAreExecutions` says of the syntax |
| EffectExecution.SynchronousExecutionReachesEffect | eslint-rules/effect-misuse-execution.js:187-202 | The recursive search answers reachability avoiding the functions visited so far, and a false answer leaves only dead ends in the shared set |
| EffectExecution.SomeCallReachesEffect | eslint-rules/effect-misuse-execution.js:148-180 | Trying each call with its own copy of the visited set answers whether some call's enclosing function reaches an effect |
| EffectExecution.NothingReached | eslint-rules/effect-misuse-execution.js:187-202 | When all three kinds of edge came back empty, the function and everything the search shared are dead ends: why sharing the set on one kind of edge loses nothing |
| EffectExecution.Program.DeadEndsAreAvoided | eslint-rules/effect-misuse-execution.js:187-202 | Avoiding dead ends as well as the visited functions loses no walk |
| EffectExecution.Program.WalkLeaves | eslint-rules/effect-misuse-execution.js:187-202 | When an effect is reached from a function that is none itself, some edge out of it leads to an effect without ever coming back |
| Trails.LeavesForGood | eslint-rules/effect-misuse-execution.js:187-202 | A trail that starts inside some set of things, with no goal in it, can leave the set once and for all: why a search may mark what it has entered |
| EffectExecution.NearestFunction | eslint-rules/effect-misuse-execution.js:25-38 | The parent loop finds the innermost function around a node |
| DependencyListing.ListsWhatIsNeeded | scripts/audit-dependency-licenses.ts:243-308 | Main result: the list returned has, for every package that some root or workspace package needs directly or through others, one of that name and that version, nothing else, and no two that agree on both, in the order of `name@version`; versions hold no `@` |
| DependencyListing.EndsExactlyWithoutSelfDependency | scripts/audit-dependency-licenses.ts:243-308 | The collection ends exactly when no named workspace package depends on itself through workspace packages, in terms of the packages' own names and dependencies |
| DependencyListing.KeyIsInjective | scripts/audit-dependency-licenses.ts:281 | Two packages share a key only when they agree on name and version, scoped names with their own `@` included |
| DependencyClosure.TerminatesExactlyWhenAcyclic | scripts/audit-dependency-licenses.ts:285-308 | The worklist ends if and only if no workspace package depends on itself through workspace packages; on a cycle it runs forever, since workspace requests are never memoised |
| DependencyClosure.CollectProductionPackages | scripts/audit-dependency-licenses.ts:285-308 | On acyclic workspaces the loop ends, and the list returned holds exactly the packages reachable from the root packages, one for each name@version pair, in the order of these keys; `DependencyListing.ListsWhatIsNeeded` says the same of names and versions |
| DependencyClosure.SortPackages | scripts/audit-dependency-licenses.ts:305-308 | The list of the map's values is sorted by name and version and holds each recorded package once, in whatever order the map gave them |
| DependencyClosure.MutualDependencyNeverEnds | scripts/audit-dependency-licenses.ts:263-283 | A concrete workspace of two packages that depend on each other, on which the worklist runs forever |
| DependencyClosure.EmptyQueueCollected | scripts/audit-dependency-licenses.ts:285-308 | An empty queue means everything reachable was collected and nothing else |
| DependencyClosure.StepInvariant | scripts/audit-dependency-licenses.ts:263-283 | Every step of every run keeps the invariant: recorded packages are reachable, and each taken request's expansion is taken or queued |
| DependencyClosure.StepShrinks | scripts/audit-dependency-licenses.ts:263-283 | Each step visits a new manifest, or visits none and makes the queue lighter in the rank of its workspace requests |
| DependencyClosure.CycleNeverEnds | scripts/audit-dependency-licenses.ts:263-283 | On a workspace cycle the queue never runs empty, after any number of steps |
| DependencyClosure.Collection.EnqueueDependencies | scripts/audit-dependency-licenses.ts:257-261 | Pushes one request per dependency, in order, behind the queue |
| DependencyClosure.Collection.ProcessDependencyRequest | scripts/audit-dependency-licenses.ts:263-283 | Mutates queue, visited manifests and packages as one processing step says, workspace packages re-expanded on every request |
| DependencyClosure.Collection.TakeNext | scripts/audit-dependency-licenses.ts:303-306 | One turn of the loop is one step of the run |
| DependencyClosure.EnqueueRoots | scripts/audit-dependency-licenses.ts:285-302 | The initial queue holds every root package's requests |
| ExclusivePaths.SeparatedExactly | eslint-rules/no-swallowed-errors-paths.js:34-89 | The analysis answers that two nodes share no path exactly when some `if` around the first separates them: they lie in different branches, or the first lies in or under a statement of a branch block that a later `return` or `throw` of that block follows, and the second starts after the whole `if` |
| ExclusivePaths.UnsharedPathsAreExclusive | eslint-rules/no-swallowed-errors-paths.js:69-89 | Main result: when the analysis answers that two nodes share no path, no execution of blocks, `if`, `return`, `throw` and possibly-throwing expressions runs both |
| ExclusivePaths.NodesMaySharePath | eslint-rules/no-swallowed-errors-paths.js:77-89 | The climbing loop answers false exactly when some enclosing `if` separates the nodes: opposite branches, or a branch left for good before the second node |
| ExclusivePaths.AbruptStops | eslint-rules/no-swallowed-errors-paths.js:46-55 | After an abrupt statement nothing to its right in the tree runs, and the whole completes abruptly |
| ExclusivePaths.TerminatorIsAbrupt | eslint-rules/no-swallowed-errors-paths.js:46-55 | A statement followed in its block by `return` or `throw` leaves that block abruptly however it is reached |
| ExclusivePaths.OppositeIsSound | eslint-rules/no-swallowed-errors-paths.js:77-89 | A node of one branch excludes every node of the other |
| ExclusivePaths.TerminatedIsSound | eslint-rules/no-swallowed-errors-paths.js:77-89 | A node of a terminated branch excludes every node that starts after the `if` |
| ExclusivePaths.LaterIsRight | eslint-rules/no-swallowed-errors-paths.js:77-89 | Comparing source ranges is comparing positions: what starts at or after another node's end lies to its right |
| ExclusivePaths.IsDescendantOf | eslint-rules/no-swallowed-errors-paths.js:9-14 | The parent loop decides proper descent |
| ExclusivePaths.DirectStatementWithin | eslint-rules/no-swallowed-errors-paths.js:32-40 | The parent loop finds the child of the block on the way to the node |
| NestedPayloads.GatedWritesOf | eslint-rules/concurrency-guard-nested.js:263-317 | Main result: the walk finds exactly the gated relation writes of the mutation's payloads, said of object literals, keys and relations alone: `data` and `create` hold data, `upsert` wraps, any other envelope key is ambiguous, and an ambiguous payload goes on only through its `data`, with a `where` beside it or on a model without a scalar `data` |
| NestedPayloads.NextMeansFollows | eslint-rules/concurrency-guard-nested.js:172-255 | One payload leads to another exactly when a relation key holds it behind an envelope key, with the related model and the kind that the envelope key gives, or when a wrapper or an ambiguous payload holds it as its own envelope |
| NestedPayloads.HitsMean | eslint-rules/concurrency-guard-nested.js:137-216 | A payload's gated writes are exactly its relation properties with a gated related model, each with the first gated mutator that any of its envelopes writes through |
| NestedPayloads.ReachableMeansPayload | eslint-rules/concurrency-guard-nested.js:263-317 | The states that the walk can reach are exactly the payloads of the mutation |
| NestedPayloads.FindsExactlyGatedWrites | eslint-rules/concurrency-guard-nested.js:263-317 | Whatever meets the walk's specification holds exactly the gated relation writes of the mutation's payloads |
| NestedWrites.FindWrites | eslint-rules/concurrency-guard-nested.js:263-317 | Main result: the walk ends on payload graphs that are cyclic through bindings, finds exactly the gated relation writes of all states reachable from the mutation argument, and counts each reachable state's writes exactly once; what the states and their writes are is what `NestedPayloads` says of keys and literals |
| NestedWrites.Walk.CollectNestedGatedWrites | eslint-rules/concurrency-guard-nested.js:263-267 | Afterwards the state is expanded, and the findings grew by exactly the writes of the newly expanded states, all reachable from it |
| NestedWrites.Walk.CollectRelationWrites | eslint-rules/concurrency-guard-nested.js:196-216 | Records each relation property's gated write once and walks every payload it leads to |
| NestedWrites.Walk.CollectEnvelopeWrites | eslint-rules/concurrency-guard-nested.js:246-255 | Walks every payload the envelope's properties lead to |
| NestedWrites.Walk.RememberNestedWalk | eslint-rules/concurrency-guard-nested.js:183-189 | Answers true exactly for a state not expanded before, and then records it: no state is expanded twice |
| NestedWrites.Walk.CollectRelation | eslint-rules/concurrency-guard-nested.js:196-216 | One relation property: its gated write is recorded, then every envelope it holds is walked with the related model |
| NestedWrites.Walk.CollectEnvelope | eslint-rules/concurrency-guard-nested.js:246-255 | One envelope property: every payload it holds is walked with the kind its name gives |
| NestedWrites.Walk.CollectEach | eslint-rules/concurrency-guard-nested.js:196-267 | Walking a list of payloads leaves each of them expanded and adds exactly the findings of the newly expanded states |
| NestedWrites.Walk.CollectOne | eslint-rules/concurrency-guard-nested.js:196-267 | One payload reached from a state ends expanded, with exactly the findings of the newly expanded states |
| Exploration.WalkIsComplete | eslint-rules/concurrency-guard-nested.js:263-317 | A walk that started with nothing has expanded exactly the reachable states and found exactly their writes |
| NestedWrites.Walk.Expand | eslint-rules/concurrency-guard-nested.js:263-267 | Expanding a new state adds its own writes once and leaves all its successors expanded |
| NestedWrites.IdentityIsInjective | eslint-rules/concurrency-guard-nested.js:183-189 | The memo key tells kind and model apart: no two states of one payload share it |
| CollectionBound.BoundIsSound | eslint-rules/no-unbounded-promise-all.js:96-175 | Whenever the analysis gives a bound, every value of the expression is a list no longer than it, cyclic bindings included |
| CollectionBound.UnflaggedInputsAreSmall | eslint-rules/no-unbounded-promise-all.js:181-189 | A mapped input that is not flagged has at most five elements |
| CollectionBound.VerdictIsExact | eslint-rules/no-unbounded-promise-all.js:181-189 | On acyclic bindings a mapped input is flagged if and only if it can really hold more than five elements |
| CollectionBound.FlaggedExactly | eslint-rules/no-unbounded-promise-all.js:78-189 | Main result: on acyclic bindings an input, mapped or not, is flagged if and only if a `.map` call feeds it and it can hold more than five elements, or it comes from an array literal through bindings and `map`, `filter` or `slice` calls and can hold any number of elements |
| CollectionBound.UnlimitedMeans | eslint-rules/no-unbounded-promise-all.js:96-175 | On acyclic bindings a bound is missing exactly when nothing limits the length, and any bound there is tells exactly which lengths can be exceeded |
| CollectionBound.UnknownSpreadMeans | eslint-rules/no-unbounded-promise-all.js:96-175 | On acyclic bindings an unknown spread is found exactly in a collection that comes from an array literal and has no bound |
| CollectionBound.BoundIsTight | eslint-rules/no-unbounded-promise-all.js:96-175 | On acyclic bindings every bound is attained, and without a bound every length is |
| CollectionBound.MappedIsReachability | eslint-rules/no-unbounded-promise-all.js:78-175 | The path-local resolving set loses nothing: `mapped` is plain reachability of a `.map` call through bindings and spreads |
| CollectionBound.UnknownSpreadHasNoBound | eslint-rules/no-unbounded-promise-all.js:96-136 | An unknown spread always leaves the collection without a bound, so the two parts of the verdict agree |
| CollectionBound.AnalysisState.AnalyzeConstInitializer | eslint-rules/no-unbounded-promise-all.js:78-89 | Analyses an initializer with its variable marked, refuses a variable being resolved, and leaves the resolving set as it found it |
| CollectionBound.AnalysisState.AnalyzeArrayElement | eslint-rules/no-unbounded-promise-all.js:112-123 | A hole or item counts one, a spread what its argument's analysis says, an unbounded spread as unknown |
| CollectionBound.AnalysisState.AnalyzeArrayExpression | eslint-rules/no-unbounded-promise-all.js:130-136 | The accumulating loop merges the elements' analyses |
| CollectionBound.AnalysisState.AnalyzeCollection | eslint-rules/no-unbounded-promise-all.js:162-175 | Ends on cyclic bindings and restores the resolving set |
| ProcedureMeaning.AnswersMeanInlining | eslint-rules/trpc-require-output-schema.js:65-132 | Main result: where alias cycles are harmless every answer of every sequence of queries says whether the chain comes by a procedure's name, by its own root or by the root of a binding it can be inlined to, and whether `.output` is applied on the way to one |
| ProcedureMeaning.SettledMeansInlining | eslint-rules/trpc-require-output-schema.js:65-104 | Where cycles are harmless, what a binding is known to be is what inlining it, step by step, comes by |
| ProcedureMeaning.RootMeans | eslint-rules/trpc-require-output-schema.js:84-132 | The root of a chain is the identifier that its callees and objects end in, and `hasOutput` says whether a member `output` is among them |
| ProcedureChain.IrrelevantExactlyWhenCyclesAreHarmless | eslint-rules/trpc-require-output-schema.js:65-132 | Main result: in a file whose identifiers carry the names of the bindings they reach, no answer of any sequence of queries ever depends on the queries before it if and only if on every cycle of aliases either each alias agrees with the next (neither is rooted in a procedure's name, or both are and both or neither applies `.output`), or no alias applies `.output` and of any alias and the next one is rooted in a procedure's name |
| ProcedureChain.CacheIsInvisible | eslint-rules/trpc-require-output-schema.js:65-132 | Where cycles are harmless, each cached answer is the uncached meaning: an alias is what its target makes it, and on a cycle its root's name decides |
| ProcedureChain.VariableIsSettled | eslint-rules/trpc-require-output-schema.js:65-77 | Where cycles are harmless and every cached answer shows what its binding is, a binding not being visited shows its uncached meaning, alias cycles included, and so does the cache left behind |
| ProcedureChain.UndisturbedIsHarmless | eslint-rules/trpc-require-output-schema.js:65-104 | When no alias on a cycle shows anything more for what its target is by its own name, the whole cycle is harmless: a missing procedure name or a missing `.output` spreads around it |
| ProcedureChain.DisturbanceShows | eslint-rules/trpc-require-output-schema.js:65-132 | An alias on a cycle that its target does disturb is answered differently after a query for the target than when asked first, by two queries a file can hold |
| ProcedureChain.AcyclicAliasesAreInlined | eslint-rules/trpc-require-output-schema.js:65-77 | Acyclic aliases meet the condition, and the meaning then inlines every alias down to its last target |
| ProcedureChain.CyclicAliasesDependOnOrder | eslint-rules/trpc-require-output-schema.js:65-77 | A concrete cycle of two aliases that is not harmless: the answer to the second query depends on the first |
| ProcedureChain.DisagreementCanBeHarmless | eslint-rules/trpc-require-output-schema.js:84-104 | A concrete harmless cycle whose neighbours disagree, `b = aProcedure` with `aProcedure = b`: each passes for a procedure without an output schema whatever the cache holds |
| ProcedureChain.ProcedureAnalysis.QueryVariable | eslint-rules/trpc-require-output-schema.js:65-77 | The mutating analysis of a variable computes answer and cache as specified and leaves nothing marked as seen |
| ProcedureChain.ProcedureAnalysis.QueryChain | eslint-rules/trpc-require-output-schema.js:84-132 | The loop along a chain and its root fallback compute answer and cache as specified, and leave `seen` as it was |
| ProcedureChain.RunQueries | eslint-rules/trpc-require-output-schema.js:106-132 | A sequence of queries on one analysis gives the answers that `CacheIsInvisible` and the exact condition speak of |
| VitestNames.EndsExactlyWithoutRebinding | scripts/client-test-isolation-classifier-source.ts:52-155 | Main result: the loop ends exactly when no name is bound to two methods, where a name is bound to a method by an initializer or a destructuring pattern that reads it off `vi`, off an alias of `vi`, or off the `vi` of a namespace import of vitest |
| VitestNames.AliasesMeanNames | scripts/client-test-isolation-classifier-source.ts:52-155 | What the loop ends with holds exactly the namespace imports of vitest, the names that stand for `vi` and the names bound to a method with that method |
| VitestNames.LeastMeansStandsForVi | scripts/client-test-isolation-classifier-source.ts:97-155 | The least closed set holds exactly the names that stand for `vi`: imported as `vi`, or declared with an initializer that is `vi` or a name that stands for it |
| VitestAliases.TerminatesExactlyWithoutConflict | scripts/client-test-isolation-classifier-source.ts:52-66 | The loop ends if and only if no local name is bound to two different methods: an overwrite reported as a change would go on forever |
| VitestAliases.RebindingNeverEnds | scripts/client-test-isolation-classifier-source.ts:285-293 | A concrete file that binds one name to `mock` and then to `unmock`, on which the loop runs forever |
| VitestAliases.CollectVitestAliases | scripts/client-test-isolation-classifier-source.ts:52-66 | Without conflicts the loop ends with the least sets closed under the import, variable and destructuring rules |
| VitestAliases.DeclarationOrderIsIrrelevant | scripts/client-test-isolation-classifier-source.ts:52-66 | The order of the declarations decides neither whether the loop ends nor what it finds |
| VitestAliases.UnchangedIsLeast | scripts/client-test-isolation-classifier-source.ts:97-155 | A pass that changes nothing has computed the least sets, and shows the file free of conflicts |
| VitestAliases.PassShrinks | scripts/client-test-isolation-classifier-source.ts:97-104 | Without conflicts every changing pass leaves fewer names missing |
| VitestAliases.MutableAliases.AddToSet | scripts/client-test-isolation-classifier-source.ts:279-283 | Adds the name and reports whether it was new |
| VitestAliases.MutableAliases.AddToMap | scripts/client-test-isolation-classifier-source.ts:285-293 | Records the method and reports a change whenever the recorded one differed, an overwrite included |
| VitestAliases.MutableAliases.CollectBindings | scripts/client-test-isolation-classifier-source.ts:131-155 | The loop over binding elements records the methods bound, skipping nested patterns and unknown methods |
| VitestAliases.MutableAliases.CollectDeclaration | scripts/client-test-isolation-classifier-source.ts:106-144 | One declaration adds an object alias, method aliases or nothing, as its initializer and pattern say |
| VitestAliases.MutableAliases.CollectVariableAliases | scripts/client-test-isolation-classifier-source.ts:97-104 | One pass over all declarations, reporting whether any changed something |
| TransactionClients.ObservationsAreRight | eslint-rules/transaction-callback-tracker.js:54-100 | Main result: whatever a traversal observes is right about the node, said of the tree alone: it is inside a transaction iff a function around it is the first argument of a call of a member named `$transaction`; its client variables are the first parameters of those functions; its client names are the first parameter of the innermost one, and `prisma` where a function further in has a parameter of that name |
| TransactionClients.AgreementMeans | eslint-rules/no-outer-client-in-transaction.js:145-168 | A frame agrees with the scopes around a node exactly when it is right about the node |
| TransactionTracking.Traverse | eslint-rules/transaction-callback-tracker.js:54-100 | Main result: in a depth-first traversal every node is entered once, in order; at each `inTransaction` holds iff some enclosing function is the first argument of a `$transaction` call; the frame's client variables and names are those the tree gives; the stack is empty at the end |
| TransactionTracking.FrameAgrees | eslint-rules/no-outer-client-in-transaction.js:145-168 | The frame pushed for a function agrees with the functions around it, that function included |
| TransactionTracking.NamesInherited | eslint-rules/no-outer-client-in-transaction.js:145-156 | A function that is no callback inherits the client names and adds `prisma` only inside a transaction and only when it has such a parameter |
| TransactionTracking.NamesOfCallback | eslint-rules/no-outer-client-in-transaction.js:145-156 | A callback replaces all inherited client names by its own first parameter |
| TransactionTracking.VariablesExtend | eslint-rules/no-outer-client-in-transaction.js:162-168 | Client variables accumulate over all enclosing callbacks |
| TransactionTracking.Tracker.RecordTransactionCall | eslint-rules/transaction-callback-tracker.js:77-81 | Remembers an inline callback, with its identity, before its arguments are entered |
| TransactionTracking.Tracker.EnterFunction | eslint-rules/transaction-callback-tracker.js:61-69 | Pushes a frame computed from the frame below and the recorded callback |
| TransactionTracking.Tracker.ExitFunction | eslint-rules/transaction-callback-tracker.js:71-73 | Pops exactly the top frame |
| TransactionTracking.Tracker.Enter | eslint-rules/transaction-callback-tracker.js:61-97 | Entering a node leaves the top frame in agreement with the functions around it, and records whatever callback lies below |
| TransactionTracking.Tracker.Visit | eslint-rules/transaction-callback-tracker.js:90-97 | Entering, visiting and leaving a subtree restores the whole stack, and every observation made agrees with the tree |
| SocketPairs.ReportedExactly | eslint-rules/socket-listener-cleanup.js:103-296 | Main result: an `on` call is reported as outside any effect exactly when no lifecycle callback is around it, and as missing its cleanup exactly when it lies in no cleanup function and nothing settles it: no `off` of the same object, event and handler and no `removeAllListeners` of the same object, in cleanup of its lifecycle callback or in a function that the callback returns by name; nothing else is reported, and nothing twice |
| SocketPairs.CoverageMeansUndoes | eslint-rules/socket-listener-cleanup.js:56-124 | A cleanup call covers a registration exactly when it is a `removeAllListeners` on the same object, or an `off` on the same object for the same event and the same handler, both calls with an event and a handler that can be told; object names hold no `:`, handlers no `::`, and no handler starts with `:` |
| SocketPairs.KeyMeaning | eslint-rules/socket-listener-cleanup.js:56-124 | A call has a listener key exactly when it names a handler and an event, a literal, a member expression or a constant in force, and the key is made of object, event and handler |
| SocketPairs.KeyIsInjective | eslint-rules/socket-listener-cleanup.js:56-63 | Two keys are equal only when object, event and handler are |
| SocketPairs.ScopesMeaning | eslint-rules/socket-listener-cleanup.js:262-278 | Resolving a name finds the value of the constant declaration in force: the latest before the use in the innermost block around it that declares one |
| SocketPairs.TraceFollowsFile | eslint-rules/socket-listener-cleanup.js:298-327 | The rule meets a file's nodes in the order of the text, and leaves each after all that is in it |
| SocketVerdicts.CheckFile | eslint-rules/socket-listener-cleanup.js:147-327 | Main result: both stacks end as they began, and the reports are, in number and content, the verdicts on the file's `on` calls; `SocketPairs.ReportedExactly` says which calls those are by object, event and handler |
| SocketVerdicts.ReportedExactlyAsJudged | eslint-rules/socket-listener-cleanup.js:175-183 | Every place is entered once, and an `on` call is reported exactly as its verdict says, once or not at all: outside every lifecycle callback, or uncovered by what its nearest one gathered |
| SocketVerdicts.EveryCallIsJudgedOnce | eslint-rules/socket-listener-cleanup.js:175-210 | Reporting when callbacks are left weighs each call once against what its nearest lifecycle callback gathered over the whole traversal |
| SocketVerdicts.CleanupCounts | eslint-rules/socket-listener-cleanup.js:239-259 | Every matching cleanup call made inside cleanup of the same lifecycle callback counts, whatever the trace: the first of the two ways that `CoveredExactly` proves to be the only ones |
| SocketVerdicts.CoveredExactly | eslint-rules/socket-listener-cleanup.js:239-296 | A registration is covered if and only if some matching cleanup call of the same lifecycle callback was made in cleanup, or was made by a named function itself that was the last of its name to be left before a `return` of that name directly in the callback |
| SocketVerdicts.FileCleaning | eslint-rules/socket-listener-cleanup.js:185-204 | A place counts as cleanup if and only if it lies in a function that its lifecycle callback returns on the spot, or whose name the callback returned before the function was entered |
| SocketVerdicts.SilentExactly | eslint-rules/socket-listener-cleanup.js:175-296 | Inside a lifecycle callback an `on` call goes unreported if and only if it lies in a cleanup function itself or some cleanup call counts for it, with cleanup read off the file and no longer off the rule's flags |
| SocketVerdicts.OnlyOwnCallsCount | eslint-rules/socket-listener-cleanup.js:239-296 | Nothing counts but a matching cleanup call inside the same lifecycle callback, also when a named function was returned: a callback never pays for another's registrations |
| SocketTrace.OwnerOfPlace | eslint-rules/socket-listener-cleanup.js:185-204 | The context a frame inherits is that of the nearest lifecycle callback around it |
| SocketVerdicts.GatheredIsSettled | eslint-rules/socket-listener-cleanup.js:239-296 | What a callback gathered never changes once it was left |
| SocketVerdicts.LeavingReleases | eslint-rules/socket-listener-cleanup.js:175-183 | Leaving a callback makes exactly the verdicts due that were held back for it |
| SocketListeners.SocketRule.EnterFunction | eslint-rules/socket-listener-cleanup.js:185-204 | Pushes the frame the stack below and the marks call for; a lifecycle callback gets a fresh context |
| SocketListeners.SocketRule.StoreNamedFunctionCleanup | eslint-rules/socket-listener-cleanup.js:169-173 | Hands a named function's own cleanup calls to the frame below when both share a context |
| SocketListeners.SocketRule.ReportMissingCleanups | eslint-rules/socket-listener-cleanup.js:176-183 | Leaving a lifecycle callback appends one report for each of its calls that nothing covers |
| SocketListeners.SocketRule.NoteLifecycleCallback | eslint-rules/socket-listener-cleanup.js:212-216 | Marks exactly the function that is the first argument of a lifecycle call |
| SocketListeners.SocketRule.HandleSocketOn | eslint-rules/socket-listener-cleanup.js:222-236 | Reports outside every context, queues the call in its context outside cleanup, ignores it in cleanup |
| SocketListeners.SocketRule.HandleSocketCleanup | eslint-rules/socket-listener-cleanup.js:239-259 | Credits the context inside cleanup and the function itself elsewhere |
| SocketListeners.SocketRule.ResolveConst | eslint-rules/socket-listener-cleanup.js:262-268 | The search from the innermost scope outwards finds the innermost non-empty constant |
| SocketListeners.SocketRule.SocketListenerKey | eslint-rules/socket-listener-cleanup.js:103-124 | The listener key, absent when the event or the handler has no usable name; `SocketPairs.KeyMeaning` says what it is made of |
| SocketListeners.SocketRule.NoteConstString | eslint-rules/socket-listener-cleanup.js:271-278 | Sets a non-empty constant in the top scope only |
| SocketListeners.SocketRule.NoteReturnedCleanup | eslint-rules/socket-listener-cleanup.js:280-296 | Only directly in a lifecycle callback: marks a returned function, or remembers a returned name and credits what that function had gathered |
| SocketListeners.SocketRule.EnterCall | eslint-rules/socket-listener-cleanup.js:305-317 | A call is first noted as lifecycle, then handled as `on` or as cleanup, and everything stays in step with the tree |
| SocketListeners.SocketRule.EnterReturn | eslint-rules/socket-listener-cleanup.js:318 | A `return` directly in a lifecycle callback credits exactly what the tree and the trace call for |
| SocketListeners.SocketRule.EnterOther | eslint-rules/socket-listener-cleanup.js:299-326 | Functions push frames, blocks push scopes, constants set the scope of their own block, and nothing else changes |
| SocketListeners.SocketRule.EnterNode | eslint-rules/socket-listener-cleanup.js:298-317 | Entering any node keeps stacks, contexts and reports what the tree and the trace say they are, and marks whatever concerns the children |
| SocketListeners.SocketRule.ExitFunction | eslint-rules/socket-listener-cleanup.js:206-210 | Leaving a function pops its frame, stores, reports, and keeps everything in step |
| SocketListeners.SocketRule.Visit | eslint-rules/socket-listener-cleanup.js:298-327 | Visiting a subtree restores both stacks' depths and keeps them in step with the trace of that subtree |
| StatusWords.ClosedExactly | scripts/backlog-lint-status.ts:153-264 | Main result: a status closes its note exactly when some word of its text does, with words as runs of letters and digits and statements as stretches without punctuation: a terminal word that no negation or hedge precedes in its statement, or a closing word that is the first word of all, in either case with no word of the vocabulary in an earlier statement |
| StatusWords.StatementsLie | scripts/backlog-lint-status.ts:141-181 | The clauses and their words are exactly the words of the text, in order, with two words in one clause exactly when no punctuation stands between them |
| BacklogStatus.VerdictMeaning | scripts/backlog-lint-status.ts:184-202 | A clause is terminal iff a terminal word stands before any negation or hedge, or the leading clause opens with a closing word; declared iff otherwise some word is recognised |
| BacklogStatus.LaterClausesChangeNothing | scripts/backlog-lint-status.ts:257-264 | Once a clause has spoken, text appended after a clause boundary never changes the lifecycle |
| BacklogStatus.ClosedMeansFirstCloses | scripts/backlog-lint-status.ts:257-264 | Terminal means exactly that the first non-silent clause closes the note |
| BacklogStatus.ClosedIsRecognized | scripts/backlog-lint-status.ts:267-270 | A terminal lifecycle implies a recognised status and either a terminal reading or a leading closing word |
| BacklogStatus.TerminalButActionable | scripts/backlog-lint-status.ts:153-169 | A status that reads terminal but is actionable declared another state in an earlier clause |
| BacklogStatus.ScanTokens | scripts/backlog-lint-status.ts:184-202 | The flag loop over tokens gives the clause's verdict |
| BacklogStatus.LifecycleFromStatus | scripts/backlog-lint-status.ts:257-264 | The early-returning loop over clauses gives the lifecycle |
| BacklogStatus.TerminalStatus | scripts/backlog-lint-status.ts:153-169 | True exactly when some clause has a terminal word with no negation or hedge before it |
| EffectiveLines.CommentOnlyLines | eslint-rules/max-lines.js:62-77 | For an ordered stream of code tokens and comments, gives exactly the comment's lines that no code token touches, multi-line comments and several comments per line included |
| EffectiveLines.AllCommentOnlyLines | eslint-rules/max-lines.js:119-125 | Over all comments: exactly the lines some comment touches and no code token does |
| EffectiveLines.CountedLines | eslint-rules/max-lines.js:106-128 | The counted lines are exactly all lines but the phantom one and, as asked, the blank ones and the comment-only ones, in order; a shebang line is a comment that no code touches |
| EffectiveLines.NeighboursDecide | eslint-rules/max-lines.js:45-77 | On a comment's lines only the nearest code tokens on either side can touch, whatever the rest of the file holds |
| EffectiveLines.AdjacentCodeToken | eslint-rules/max-lines.js:45-53 | The loop steps over comments to the nearest code token on that side |
| EffectiveLines.RealLines | eslint-rules/max-lines.js:106-114 | The raw lines without the phantom line a trailing newline leaves |
| BacklogNotes.ListsEveryNote | scripts/backlog-lint-classify.ts:105-190 | Main result: the catalog lists the files below the backlog directory and no others, in path order, each with its name, its directory, its class by where it lies and what it is called, and its state by what its status says |
| BacklogNotes.CatalogAddsUp | scripts/backlog-lint-classify.ts:136-214 | Main result: with distinct paths there is one rollup for every directory that holds a file directly, which names that directory's index and says how many of its files are in each state and how many lie deeper; the counts by class are the numbers of notes of each class and state |
| BacklogNotes.LocationMeans | scripts/backlog-lint-grammar.ts:234-243 | A path lies in the root, directly in a directory of the root, or deeper in one, exactly as its slashes say; any other path is not located |
| BacklogNotes.LeafMeans | scripts/backlog-lint-grammar.ts:101 | A name is a leaf's exactly when it is digits, at most one letter, a dash, something on one line, and `.md` in either case |
| BacklogNotes.BaseMeans | scripts/backlog-lint-grammar.ts:187-190 | The base name is what follows the last slash |
| BacklogNotes.StateMeans | scripts/backlog-lint-classify.ts:105-108 | A note's state is unknown exactly without a status or with a blank one, terminal exactly when some word of the status closes it, else actionable |
| BacklogNotes.IndexMeans | scripts/backlog-lint-grammar.ts:268-296 | A directory's index is `00-index.md` if it has such a file, and else the file that reads like an index and goes before all others that do: declared before guessed, then by rank, then by name |
| BacklogCatalog.IndexIgnoresOrder | scripts/backlog-lint-grammar.ts:268-296 | The chosen pack index depends on which notes are members, not on their order |
| BacklogCatalog.ChooseIndexBase | scripts/backlog-lint-grammar.ts:284-296 | The running best ends as the canonical index when present, else a candidate at least as good as every other, else none |
| BacklogCatalog.BuildPackShapes | scripts/backlog-lint-grammar.ts:311-334 | One shape for every directory with an immediate member, with exactly its members and their index, sorted by name |
| BacklogCatalog.PacksAreUnique | scripts/backlog-lint-grammar.ts:311-334 | The shapes are determined by the notes |
| BacklogCatalog.MemberPath | scripts/backlog-lint-grammar.ts:187-253 | An immediate member's path is its pack directory, a slash and its basename, so a basename identifies a member |
| BacklogCatalog.OneIndexNote | scripts/backlog-lint-classify.ts:110-119 | With distinct paths, a pack with an index has exactly one note classed as pack index, at the rollup's index path; a pack without has none |
| BacklogCatalog.CountsAreConserved | scripts/backlog-lint-classify.ts:155-169 | The counts by record class sum to the totals, state by state, and the totals to the number of notes |
| BacklogCatalog.RollupIsConserved | scripts/backlog-lint-classify.ts:136-153 | A rollup's states sum to its members, and members and working files together to the notes its directory owns |
| BacklogCatalog.AllAccountedExactlyWithoutStrays | scripts/backlog-lint-classify.ts:198-213 | Rollups and standalone notes account for every note if and only if each pack directory that owns a note has an immediate member; notes found only deeper down are in no rollup |
| BacklogCatalog.LoneWorkingFileIsLost | scripts/backlog-lint-classify.ts:198-213 | The smallest failing tree: a pack directory whose one file lies deeper down, in a `working/` directory say, is in the totals but in no rollup and not standalone |
| BacklogCatalog.CatalogIgnoresFileOrder | scripts/backlog-lint-classify.ts:176-214 | With distinct paths the whole catalog, all counts and lists included, is independent of the order of the files |
| BacklogCatalog.ClassifyBacklogTree | scripts/backlog-lint-classify.ts:176-214 | The catalog built by the loops is the one the conservation and uniqueness lemmas speak of |
| BacklogCatalog.CountBy | scripts/backlog-lint-classify.ts:99-103 | The counting loop counts each state |
| BacklogCatalog.CountByRecordClass | scripts/backlog-lint-classify.ts:155-169 | The one-pass loop counts each state within each class |
| BacklogCatalog.GroupByPack | scripts/backlog-lint-classify.ts:198-204 | The buckets hold exactly the notes each pack directory owns, in order |
| BacklogCatalog.RollUpPack | scripts/backlog-lint-classify.ts:136-153 | Counts a pack's members and working files apart |
| Sorting.SortIgnoresOrder | scripts/backlog-lint-classify.ts:177 | Sorting things with distinct keys under a total order gives the same list for every arrangement of them |
| RecipeText.GeneratorMeans | scripts/generate-baseline-conflict-recipes.ts:133-156 | Main result: a run succeeds with a given runbook exactly when that runbook is reached by four splices, the ratchet's own rendering and then the three recipes of the driver with their paths filled in, each putting the fenced recipe in place of the text from the key's first start marker to the first end marker behind it, and changing nothing else |
| RecipeText.RecipeMeans | scripts/generate-baseline-conflict-recipes.ts:50-112 | A recipe is had exactly when the recovery function has the key's label, its arm an unquoted opener before any quoted one, and the heredoc an end before the arm's; it is then the very stretch of the driver between opener and end |
| RecipeText.FilledMeans | scripts/generate-baseline-conflict-recipes.ts:133-140 | Replacing all placeholders gives a text exactly when the recipe comes apart into pieces without `$path` that were joined by `$path` and are now joined by the path |
| RecipeText.NothingLeftToFill | scripts/generate-baseline-conflict-recipes.ts:133-140 | With a path that holds no dollar sign and cannot continue a cut placeholder no `$path` is left |
| RecipeText.PathsFillAll | scripts/generate-baseline-conflict-recipes.ts:26-31 | Filling in any of the committed paths leaves no `$path` |
| RecipeText.SpliceMeans | scripts/generate-baseline-conflict-recipes.ts:145-153 | One splice, in terms of the runbook's text alone: the literal markers and fences, the recipe, and the text before and behind unchanged |
| RecipeText.QuotedMeans | scripts/generate-baseline-conflict-recipes.ts:36-40 | An opener is refused exactly when a line that begins with `cat` has `<<`, perhaps a dash, perhaps white space, and a quote |
| RecipeSplice.GeneratorIsStable | scripts/generate-baseline-conflict-recipes.ts:133-156 | Main result: on a runbook whose regions do not overlap and with recipes free of markers, the generator succeeds, running it again changes nothing, every region reads back as its recipe, the text outside the regions is what it was, and any recipes spliced over the result give what they give on the runbook itself |
| RecipeSplice.LastSpliceWins | scripts/generate-baseline-conflict-recipes.ts:133-156 | Splicing all recipes and then others for the same keys is splicing the others alone, so a second run with the same recipes changes nothing |
| RecipeSplice.NothingOutsideChanges | scripts/generate-baseline-conflict-recipes.ts:133-156 | The text outside the regions, with a hole where each region stood, is the same before and after all recipes were spliced |
| RecipeSplice.SpliceKeepsOutside | scripts/generate-baseline-conflict-recipes.ts:145-153 | One splice leaves the text outside all regions, and the order of the regions in it, as it was |
| RecipeSplice.AllReadBack | scripts/generate-baseline-conflict-recipes.ts:133-156 | After splicing all keys every region gives back the recipe that was put in |
| RecipeSplice.SplicesCommute | scripts/generate-baseline-conflict-recipes.ts:145-153 | Splices of different keys can be done in either order |
| RecipeSplice.SpliceReadsBack | scripts/generate-baseline-conflict-recipes.ts:145-153 | One splice: the region is found again where it was, holds the block, reads back as the recipe, and the text before and after is character for character what it was |
| RecipeSplice.OtherRegionMoves | scripts/generate-baseline-conflict-recipes.ts:145-153 | Splicing one key moves each other region by the change in length and leaves its text alone |
| RecipeSplice.SpliceKeepsMarked | scripts/generate-baseline-conflict-recipes.ts:145-153 | Splicing keeps every pair of markers and their disjointness |
| RecipeSplice.MissingMarkersFail | scripts/generate-baseline-conflict-recipes.ts:146-148 | A key is refused exactly when the runbook has no start marker followed by an end marker |
| RecipeSplice.BaselineKeysArePlain | scripts/generate-baseline-conflict-recipes.ts:26-31 | The keys of the committed baselines hold no angle bracket and no line break, so no marker of one can be mistaken for another's |
| RecipeSplice.BoxCuts | scripts/generate-baseline-conflict-recipes.ts:141-145 | No marker can begin inside a block and end outside it, or the other way round |
| RecipeSplice.SpliceRecipeBlocks | scripts/generate-baseline-conflict-recipes.ts:133-156 | The reassigning loop over the baselines gives the specified document or the first failure, extraction before markers |
| RecipeSplice.CollectArmLines | scripts/generate-baseline-conflict-recipes.ts:50-68 | The flag loop gives exactly the lines between the key's label and the first terminator after it, inside the recovery function |
| RecipeSplice.HeredocBody | scripts/generate-baseline-conflict-recipes.ts:71-92 | The lines between an unquoted opener and the first bare end line; a quoted opener on the way or a missing end is refused |
| RecipeSplice.ExtractDriverRecipe | scripts/generate-baseline-conflict-recipes.ts:104-112 | A missing arm fails; otherwise the recipe comes from that arm alone |

## Left out

- File system access, process spawning, argument parsing, report formatting and message texts: plumbing with no algorithm; what a core reads from disk is a parameter of its model.
- Globs: character classes, extended globs, backslash escapes and comment patterns of minimatch are not matched; the builder's policies use literals, `*`, `**`, `?` and braces. A magic character of an unmodelled form still ends the static prefix. The library's source is not part of the repository: the matcher says how its patterns are read here, and all the builder's proofs use of it are the two facts about static prefixes and literal paths.
- Glob.LiteralMatchesOnlyItself: minimatch also reads a backslash as an escape and a leading `#` as a comment, which the source's literal-path check does not look for; the modelled matcher takes both literally, as the committed policies use neither.
- ESLint's treatment of a `files` pattern that is `*` or ends in `/*` or `/**` (such an entry alone selects no file for linting): resolution is modelled for paths that are linted.
- `restricted-syntax-policy.js` and the configuration tables: instances of the builder, not algorithms.
- RestrictedSyntaxBuilder.Build: failures are data constructors that name the offending id; the message texts are not modelled.
- DependencyClosure.CollectProductionPackages: the locale's comparison of two keys is a parameter, required to be a total order that tells distinct keys apart; the walk over all of `node_modules` that the `--all` mode does instead is not modelled.
- EffectExecution.IsSynchronouslyInsideEffect: what counts as an effect call, a continuation method or a function's variable is part of the modelled program, not computed from identifiers.
- DependencyListing.ListsWhatIsNeeded: a version that contains `@`, which no published package has, could share a key with another package; such versions are not covered.
- SocketPairs.CoverageMeansUndoes: an object name that contains `:`, or a handler's text that contains `::` or starts with `:`, could share a key with another pair; identifiers and dotted members hold neither, and calls that do are not covered.
- ProcedureMeaning.AnswersMeanInlining: a chain wrapper directly in another, which the grammar has not, is not covered.
- NestedWrites.FindWrites: starts at the mutation's argument; how a call is recognised as a mutation and how receiver aliases are recorded is not modelled.
- ExclusivePaths.UnsharedPathsAreExclusive: loops, `break`, `continue` and inner `try` statements are outside the language of executions, and expressions hold only expressions, so nodes in or next to the body of a nested function are not covered; the source's claim is meant for straight-line and branching code.
- CollectionBound.BoundIsSound: arrays are not mutated after construction, as the source states it does no assignment or control-flow analysis.
- CollectionBound.VerdictIsExact: on cyclic bindings only the sound direction (`UnflaggedInputsAreSmall`) holds, since an expression that refers to itself has no value.
- `startsWithOuterPrismaClient`, `containsOuterPrismaClient` and the recording of outer-client aliases in `no-outer-client-in-transaction.js`: each is settled by reading one branch; the frames they consult are modelled.
- SocketVerdicts.CheckFile: whether a call is a lifecycle hook or concerns a socket is part of the tree's node kinds, as is the source text of a member expression used as an event or a handler.
- BacklogStatus.LifecycleFromStatus: lowercasing is modelled for ASCII letters; the few other characters whose lowercase form is an ASCII letter count as separators in the model.
- BacklogCatalog.ClassifyBacklogTree: the parsed fields of a note (status value, index name rank, whether it declares itself an index) are inputs; parsing headers and dates is not modelled, nor is Unicode case folding in file names.
- RecipeSplice.GeneratorIsStable: the ratchet's own renderer is a parameter, and the paths filled in for `$path` hold no replacement patterns.
- The HTML marker search is modelled as the first start marker and the first end marker after it, which is what the regular expression with a lazy middle finds; regular-expression engines are not modelled.
- Rules that check a single node, the coverage-map and manifest tables, and the Markdown rendering: each is settled by reading one branch.
