# codeiq graph indexer: a verified model

This project models the graph indexer of codeiq and proves properties of it with Dafny 4.11.
`dafny verify dfyconfig.toml` checks everything.

The indexer works in two steps. `index` walks a project, runs detectors on every new or changed
file with a pool of workers, merges what they emit into a graph buffer and caches it by content
hash. `enrich` rebuilds the graph from the cache, runs the linkers, the language extractors and
the service detector on it, loads it into a graph store and stores a manifest hash with which a
later `enrich` can stop early. On top of the graph sit queries over services and a command
that reviews diffs. The model covers these parts:

| files | component |
|---|---|
| `CycleForms`, `LeastWalks`, `CircularDependencies` | circular service dependencies: depth-first search with an on-stack set |
| `ServicePath` | shortest service path: breadth-first search over whole paths |
| `CacheStore`, `Manifest` | the cache tables and the bytes its manifest hashes |
| `IndexRuns`, `IndexEquivalence`, `Analyzer`, `IndexFigures` | index runs: a state machine over all worker interleavings, `Diff`, `processFile`, `Run`, sequences of runs on the tables, and the figures a run prints |
| `Enrich` | the store, its manifest and the short-circuit, also with index runs beside it |
| `ConfidenceMerge`, `CodeModel`, `GraphBuilder`, `MergeOrder` | merging in place by confidence, `Add`, `Snapshot`, and what arrival order can decide |
| `SyntaxTree`, `ParserWalk`, `DetectorWalk` | the cursor walk and the recursive walk with nested closures |
| `Linker`, `TopicLinker`, `EntityLinker`, `ModuleContainmentLinker`, `LinkerPasses` | the three linkers, alone and in sequence |
| `BuildFiles`, `ServiceDetector` | which build file stands for a directory; service assignment |
| `LanguageEnricher`, `EnricherSchedules`, `EnrichPasses` | grouping by file, all goroutine schedules, the passes of `Enrich` run one after the other |
| `DiffParser`, `DiffTexts`, `DiffRoundTrip` | the diff parser on any text, and the printer it inverts |
| `Strings`, `Sequences`, `Options` | byte-wise string order, joined keys, permutations, missing results |

Code that updates variables, maps or objects step by step is written as methods and classes and
proved against functions on values; state machines stand for the goroutines. SHA-256 is an
injective function, detection a function of path and content, an extraction a function of a file
and its own nodes. A property value is one of four kinds; strings are sequences of characters
compared like Go compares bytes.

## Where the code departs from what is said about it

The model follows the code. These are the places where the obvious or documented claim fails; each
has a concrete case or an exact condition in the model.

- The cycle search recognises a reported cycle by its names joined with `->`. Names that hold `->` can hide a cycle (`CircularDependencies.SeparatorInNamesHidesCycle`): two cycles with one joined name list always do when they share no edge with any other cycle, and where no cycles share an edge the report covers every cycle exactly when joined name lists differ (`CircularDependencies.CollisionApartHidesCycle`, `CircularDependencies.CoverageIffKeysDistinguish`).
- An incremental run agrees with a full re-analysis exactly when live contents are distinct and none is cached under another live path (`IndexEquivalence.AgreementIsExact`).
- A forced run keeps the cache rows of vanished paths (`IndexEquivalence.ForcedRunRepairsButKeepsVanished`).
- `ManifestHash` is taken at the end of `Enrich`, so an index run that commits meanwhile makes the next `enrich` keep a stale graph (`Enrich.CommitDuringEnrichIsKept`).
- `Reset` deletes the nodes before the manifest. Broken off in between it leaves the manifest of the deleted graph, and the next `enrich` short-circuits on an empty one (`Enrich.BrokenResetIsKept`).
- The NUL separator of the manifest does not rule out that two different caches hash the same bytes when a path holds NUL (`Manifest.NulInPathCollides`); file systems rarely allow such a path.
- Which value of a property survives merging can depend on the arrival order (`MergeOrder.ArrivalOrderCanDecideProperty`, exact condition in `MergeOrder.NodeValueIndependenceIsExact`). The comment on `mergeNode` also lets an incoming value replace a nil one; the code looks only at whether the key is there (`CodeModel.NilIsNotReplaced`).
- `FindFirstByType` returns the first match of the last root child that has one (`DetectorWalk.FirstByTypeIsExact`, `DetectorWalk.SecondChildIsReturned`).
- The module linker looks pairs up by a joined string and can leave a member out (`ModuleContainmentLinker.EveryMemberContainedIff`, `ModuleContainmentLinker.SeparatorInNamesHidesMember`), and it can give a new module node the ID of a node that is no module (`ModuleContainmentLinker.IdsStayUniqueIff`, `ModuleContainmentLinker.ClassWithModuleIdIsDuplicated`).
- A supplemental build file met first keeps its directory against Python build files, so a `Dockerfile` hides a `pyproject.toml` (`BuildFiles.DockerfileHidesPyproject`).
- Two services in different directories can share an ID when a directory holds a colon (`ServiceDetector.ServiceIdsCollideIff`, `ServiceDetector.ColonInDirectoryCollides`).
- Diff lines that begin with `+++` or `---` are not counted, carriage returns at line ends are lost, and the path of a file without a `+++ b/` line is wrong when the old name holds a space (`DiffRoundTrip.RoundTripIff`, `DiffRoundTrip.AddedIncrementIsLost`). With the line a path with a space is misread all the same, because git ends such a name with a tab that the parser keeps (`DiffRoundTrip.GitRoundTripIff`).
- Hunk lines before the first file header are not dropped: they open the first file's hunks (`DiffTexts.ParsedTextIsKept`).

## Model

| member | source | states |
|---|---|---|
| `CycleForms.NormalizeCycle` | internal/query/topology.go:506-524 | the rotation loop computes the normal form: the cycle rotated to its first smallest name and closed again |
| `CycleForms.NormalFormIsSameCycle` | internal/query/topology.go:503-524 | normalising keeps a cycle's edges, services and length and makes it start at its smallest name |
| `CycleForms.SameNormalFormIffRotation` | internal/query/topology.go:503-524 | two duplicate-free cycles get one normal form exactly when one is a rotation of the other |
| `CircularDependencies.BuildAdjacency` | internal/query/topology.go:422-428 | the adjacency map holds exactly the edges of the connection rows |
| `CircularDependencies.Search.Report` | internal/query/topology.go:459-483 | the back-edge branch always finds the node on the path (`idx < 0` cannot happen) and reports a real, simple, normalised cycle unless its key was seen |
| `CircularDependencies.Search.Dfs` | internal/query/topology.go:455-501 | the on-stack set equals the path throughout, each service is entered on its least simple walk, all edges back onto the path are met in ascending order, finished services are settled in finishing order, no edge is explored twice, and the search terminates |
| `CircularDependencies.FindCircular` | internal/query/topology.go:417-453 | every reported cycle is a closed walk of real edges, repeats no service, starts at its smallest name and is reported once; the report is empty exactly when the graph is acyclic; every cycle runs over an edge some reported key stands for, and over an edge of a reported cycle when names are free of the separator; the list itself is, in ascending order of the walks, the first cycle of each key that an edge back onto a least simple walk closes |
| `CircularDependencies.ReportIsDetermined` | internal/query/topology.go:437-449 | the reported list depends only on which services are connected, not on the order or number of the rows |
| `LeastWalks.EntersLeast` | internal/query/topology.go:482-497 | a service met for the first time stands at the end of the lexicographically least simple walk to it |
| `LeastWalks.PassedByNext` | internal/query/topology.go:489-497 | once all smaller children are done, every simple walk before the next child ends at a service met already |
| `LeastWalks.TellFinished` | internal/query/topology.go:459-500 | when a service is finished, all edges back from it onto its least walk have been met, in ascending order of the walks |
| `LeastWalks.AllClosingIsUnique` | internal/query/topology.go:455-501 | a graph has one ascending list of least walks with a step back onto them |
| `LeastWalks.KeptIsFirsts` | internal/query/topology.go:474-479 | a cycle is kept, in order, exactly for the walks whose joined key no earlier one has |
| `CircularDependencies.EveryCycleIsAcknowledged` | internal/query/topology.go:443-501 | no cycle escapes: along unacknowledged edges finishing positions strictly fall, so a closed walk has an acknowledged edge |
| `CircularDependencies.EmptyReportIffAcyclic` | internal/query/topology.go:414-449 | an empty report means no cycle, and conversely |
| `CircularDependencies.DistinctKeysCoverEveryCycle` | internal/query/topology.go:476-481 | if joined keys tell the graph's cycles apart, every cycle shares an edge with a reported one |
| `CircularDependencies.ArrowFreeNamesDistinguish` | internal/query/topology.go:476-481 | names without the separator make joined keys tell cycles apart |
| `CircularDependencies.SeparatorInNamesHidesCycle` | internal/query/topology.go:476-481 | a graph whose names hold the separator where no result of the search covers both its cycles |
| `CircularDependencies.CollisionApartHidesCycle` | internal/query/topology.go:476-481 | two cycles with one joined key that share no edge with any other cycle: no well-formed report covers both |
| `CircularDependencies.CoverageIffKeysDistinguish` | internal/query/topology.go:476-481 | in a graph no two cycles of which share an edge, a report covers every cycle exactly when joined keys tell the cycles apart |
| `ServicePath.BuildAdjacency` | internal/query/topology.go:568-577 | between two services the first connection row is kept |
| `ServicePath.FindPath` | internal/query/topology.go:563-619 | a path with the fewest hops, and of these the least one service by service; each hop a connection with the kind of its first row, an empty kind shown as unknown; nothing exactly when the target is unreachable; the empty path when source and target are the same |
| `ServicePath.LeastShortestIsUnique` | internal/query/topology.go:603-608 | there is one least shortest path, so the result does not flip between runs |
| `ServicePath.EnqueuedIsLeast` | internal/query/topology.go:606-616 | the path queued for a service seen for the first time is the least of its length to that service |
| `ServicePath.ExpandService` | internal/query/topology.go:603-616 | visiting the neighbours in order queues a path to each new one, each service at most once; the queued paths of a level stay in ascending order and least to their ends |
| `ServicePath.LevelDone` | internal/query/topology.go:582-617 | once a level of the queue is expanded, unvisited services lie one hop further |
| `ServicePath.ClosedSetHoldsReachable` | internal/query/topology.go:582-618 | a visited set closed under connections holds everything reachable, so an empty queue means unreachable |
| `ServicePath.RenderHops` | internal/query/topology.go:586-600 | the hop list pairs consecutive services, an empty kind shown as unknown |
| `CacheStore.Cache.Has` | internal/cache/cache.go:82-87 | true exactly when a file row has the hash |
| `CacheStore.Cache.Put` | internal/cache/cache.go:89-138 | the rows of the hash are wiped and the entry's rows appended, all else untouched |
| `CacheStore.EntriesAfterPut` | internal/cache/cache.go:89-138 | after a put the entry reads back as stored and every other entry is unchanged |
| `CacheStore.Cache.Get` | internal/cache/cache.go:140-187 | the entry with its nodes and edges in row order, or nothing when the hash is not there |
| `CacheStore.Cache.GetFileByPath` | internal/cache/lookup.go:3-11 | a hash cached for the path, nothing exactly when there is none |
| `CacheStore.Cache.PurgeByPath` | internal/cache/lookup.go:13-36 | the path's file rows go with the node and edge rows of one of them, and the call is rolled back exactly when another of them has node rows; a missing path changes nothing; on well-formed tables it succeeds and leaves exactly the entries of other paths |
| `CacheStore.EntriesAfterPurge` | internal/cache/lookup.go:13-36 | after a purge exactly the entries of other paths are left |
| `CacheStore.PurgeIsCleanIff` | internal/cache/lookup.go:13-36 | a purge goes through and leaves no orphan exactly when all node and edge rows of the path's file rows belong to the one it looked up |
| `CacheStore.PurgeThenPutIsWellFormed` | internal/analyzer/analyzer.go:196-203 | purging a path and then putting its entry leaves one row per path and no node or edge row without its file row |
| `CacheStore.Cache.AllFiles` | internal/cache/lookup.go:38-57 | the (path, hash) rows, each once, in path order; strictly ascending with one row per path |
| `CacheStore.Cache.IterateAll` | internal/cache/cache.go:189-213 | every entry once, by path and then by hash, also when a path has several rows |
| `Manifest.DecodeEncode` | internal/cache/manifest.go:16-30 | the hashed bytes decode back to the rows when neither path nor hash holds NUL |
| `Manifest.ManifestInput` | internal/cache/manifest.go:18-31 | the bytes written row by row encode the rows in path order, and with one row per path there is only one such listing |
| `Manifest.EncodeConcatenates` | internal/cache/manifest.go:20-28 | what is hashed is, row after row, the path, a NUL, the hash and a NUL |
| `Manifest.SameInputIffSameBindings` | internal/cache/manifest.go:8-17 | with one row per path and no NUL, two caches hash the same bytes exactly when they hold the same bindings |
| `Manifest.NulInPathCollides` | internal/cache/manifest.go:16-17 | two different file tables whose listings encode to the same bytes, one with a NUL in a path |
| `IndexRuns.StepEffect` | internal/analyzer/analyzer.go:145-205 | a worker step moves one file and changes the cache only by purging its path or putting its row |
| `IndexRuns.RunKeepsOneRowPerPath` | internal/analyzer/analyzer.go:196-203 | every interleaving, complete or broken off, forced or not, keeps one row per path |
| `IndexRuns.RunKeepsFaithful` | internal/analyzer/analyzer.go:181-203 | every row keeps holding what detection emits for its path and hash |
| `IndexRuns.EveryHistoryIsSound` | internal/analyzer/analyzer.go:82-205 | over every sequence of runs, forced or not, complete or broken off anywhere, the rows have one row per path and hold only detection results |
| `IndexEquivalence.IncrementalRunIsComplete` | internal/analyzer/analyzer.go:82-205 | with distinct contents and no foreign row, every interleaving ends with exactly the live files' rows and emits each file's detection once |
| `IndexEquivalence.ForcedRunIsComplete` | internal/analyzer/analyzer.go:82-205 | the same for a forced run on an empty cache |
| `IndexEquivalence.AgreementIsExact` | internal/analyzer/analyzer.go:79-159 | for every cache a history can leave, incremental and forced runs always agree exactly when contents are distinct and no live content is cached under another live path |
| `IndexEquivalence.SharedContentDisagrees` | internal/analyzer/analyzer.go:152-161 | two live files with one content: runs disagree |
| `IndexEquivalence.ForeignRowDisagrees` | internal/analyzer/analyzer.go:152-161 | a live file whose content is cached under another live path: it hits and never gets its row |
| `IndexEquivalence.RepeatRunIsIdle` | internal/analyzer/analyzer.go:79-159 | a second run on the unchanged disk classifies every file as unchanged, hits every time and writes nothing |
| `IndexEquivalence.ForcedRunRepairsButKeepsVanished` | internal/analyzer/analyzer.go:86-97 | a forced run repairs every live file's row and keeps exactly the vanished paths' rows whose content is not live |
| `Analyzer.Diff` | internal/analyzer/diff.go:26-66 | each path lands in the bucket it belongs in; three buckets list their paths in discovery order as often as they were discovered, the vanished paths are listed once each in path order |
| `Analyzer.BucketsAreExact` | internal/analyzer/diff.go:26-66 | the listed buckets hold exactly the paths that are new, changed, vanished or unchanged against the file rows |
| `Analyzer.BucketsKeepOrder` | internal/analyzer/diff.go:26-66 | added, modified and unchanged paths are listed in discovery order, vanished ones in strictly ascending order |
| `Analyzer.ClassificationsAgree` | internal/analyzer/diff.go:37-56 | on any tables the buckets put a live file where the state machine classifies it |
| `Analyzer.RepeatDiffIsIdle` | internal/analyzer/diff.go:26-66 | after a run that left exactly the live files' rows, nothing is added, modified or deleted and the unchanged paths are all files in discovery order |
| `Analyzer.BucketsPartition` | internal/analyzer/diff.go:10-18 | the four buckets are disjoint and cover exactly the readable files and the vanished cached paths |
| `Analyzer.Worker.ProcessFile` | internal/analyzer/analyzer.go:145-205 | a hit hands over the cached entry, node by node and edge by edge, and leaves the cache; a miss hands over what the detectors give, stores exactly that under the content's hash, drops the path's other entry and leaves the rest |
| `Analyzer.Worker.Run` | internal/analyzer/analyzer.go:82-143 | the delta is what `Diff` says of the cache before the run (empty when forced); rows, hit count and emitted identities are those of the state machine run one file after the other; a cache of true detections stays one; with distinct contents and no foreign entry every file ends with its own entry, value by value as detected, and handed over what was detected |
| `Analyzer.TablesFollowEveryRun` | internal/analyzer/analyzer.go:145-205 | within one run, from tables that show the state: the real tables, with puts and purges in any interleaving, keep showing the rows of the state machine and stay well formed |
| `Analyzer.EveryHistoryOfTablesIsSound` | internal/analyzer/analyzer.go:82-205 | over every sequence of runs from empty tables, forced or not, each with its purge of vanished paths and any interleaving of its workers, complete or broken off anywhere: one file row per path and hash, no node or edge row without its file row, and the tables show the rows of the state machine |
| `Analyzer.CachedEntriesKeepDetections` | internal/analyzer/analyzer.go:181-203 | over every sequence of runs, if each stored entry kept the slots its file's detection filled, so does each cached entry |
| `Analyzer.AllNodesConcatenate` | internal/analyzer/analyzer.go:187-195 | the entry's nodes are the detectors' results one after the other |
| `Analyzer.AllEdgesConcatenate` | internal/analyzer/analyzer.go:187-195 | and so are its edges |
| `IndexFigures.IdentitiesDecideFigures` | internal/analyzer/analyzer.go:129-142 | calls that emit the same node IDs and edge keys, as often and in whatever order, give the same node, edge, deduplicated and dropped counts |
| `IndexFigures.RunsPrintSameFigures` | internal/analyzer/analyzer.go:79-142 | with distinct contents and no foreign row, a complete incremental run and a complete forced run on an empty cache print the same figures, whatever their schedules and the order they hand results over |
| `Enrich.Store.ReadManifest` | internal/graph/manifest.go:7-22 | the stored manifest, empty when there is none |
| `Enrich.Store.WriteManifest` | internal/graph/manifest.go:24-40 | the stored manifest becomes the given hash, the graph unchanged |
| `Enrich.Store.Reset` | internal/graph/refresh.go:56-70 | two statements, nodes first: both done, or failing between them with the graph empty and the manifest still there |
| `Enrich.Store.Enrich` | internal/analyzer/enrich.go:85-199 | a trustworthy manifest stays trustworthy whether the run short-circuits, completes or fails at any load, except exactly when a reset breaks off between its statements with a manifest stored; the run fails exactly at the statements that are no best effort, and graph and manifest after each failure are stated; a complete run builds the current cache and stores its manifest unless that last write fails |
| `Enrich.ManifestDeterminesCache` | internal/analyzer/enrich.go:102-115 | equal manifests of sound caches mean the same rows |
| `Enrich.AloneStaysInSync` | internal/analyzer/enrich.go:102-191 | in every reachable state without a commit while an enrich is reading and loading and without a broken-off reset, a stored manifest names the rows the graph was built from |
| `Enrich.ShortCircuitIsFresh` | internal/analyzer/enrich.go:102-115 | whenever enrich short-circuits in such a state, the graph is the complete build of the current cache |
| `Enrich.CommitDuringEnrichIsKept` | internal/analyzer/enrich.go:186-191 | a commit while an enrich is loading makes the next one short-circuit, on a fresh graph exactly when the committed cache is the one that was read |
| `Enrich.BrokenResetIsKept` | internal/graph/refresh.go:62-70 | from a state in sync with a stored manifest, a forced enrich that breaks off between the two statements of its reset makes the next enrich short-circuit on an empty graph |
| `ConfidenceMerge.FoldSummary` | internal/analyzer/merger.go:9-74 | whatever the order, the merged confidence is the greatest emitted and the filled slots are the union |
| `ConfidenceMerge.StrictTopWins` | internal/analyzer/merger.go:29-68 | a strictly most confident record keeps its slots in every order |
| `ConfidenceMerge.SlotOrigin` | internal/analyzer/merger.go:29-68 | a slot comes from the first most confident record, else from what was merged before it arrived, else from the first later record that fills it |
| `ConfidenceMerge.ValueIndependenceIsExact` | internal/analyzer/merger.go:29-68 | a slot's value is order-independent exactly when all carriers agree or all most confident records carry it and agree |
| `CodeModel.SortedUnion` | internal/analyzer/merger.go:108-122 | the union without duplicates, in strictly ascending order |
| `CodeModel.MergeNode` | internal/analyzer/merger.go:21-74 | the more confident node survives, ties keep the old one, its gaps are filled in place and the donor keeps its value |
| `CodeModel.NilIsNotReplaced` | internal/analyzer/merger.go:59-68 | a nil property of the surviving node stays nil, whatever the other node carries |
| `CodeModel.SurvivorKeeps` | internal/analyzer/merger.go:36-73 | however often a node survives a merge in place, it keeps its identity, its filled slots and its annotations |
| `CodeModel.MergeEdge` | internal/analyzer/merger.go:79-106 | the same for edges |
| `CodeModel.MergeNodesMergesRecords` | internal/analyzer/merger.go:21-74 | merging nodes is merging their records of filled slots |
| `CodeModel.MergeEdgesMergesRecords` | internal/analyzer/merger.go:79-106 | merging edges is merging their records |
| `GraphBuilder.Builder.Add` | internal/analyzer/graph_builder.go:39-64 | the buffer's values after a call are those of folding its nodes and edges in; counters count merged emissions |
| `GraphBuilder.Builder.Snapshot` | internal/analyzer/graph_builder.go:86-133 | exactly the buffered nodes and the edges with both ends, with their buffered values, nodes by strictly ascending ID, edges by ID with distinct (source, target, kind); the counts are those of the buffer; the result is closed with unique node IDs; the buffer is released |
| `MergeOrder.RunIsFlat` | internal/analyzer/graph_builder.go:39-64 | how emissions are grouped into calls does not matter |
| `MergeOrder.NodeIsFold` | internal/analyzer/graph_builder.go:47-54 | the node buffered for an ID is the fold of the records emitted for it |
| `MergeOrder.EdgeIsFold` | internal/analyzer/graph_builder.go:55-63 | the same for an edge key |
| `MergeOrder.AnnotationsAreUnion` | internal/analyzer/merger.go:70-71 | a node carries exactly the annotations emitted for its ID |
| `MergeOrder.ScheduleIndependence` | internal/analyzer/graph_builder.go:39-133 | any permutation and regrouping of emissions gives the same node IDs, edge keys, property keys, annotations, confidences and printed figures |
| `MergeOrder.EmissionsAreConserved` | internal/analyzer/graph_builder.go:96-133 | emitted nodes are kept or deduplicated; emitted edges kept, deduplicated or dropped |
| `MergeOrder.ConfidenceIsMaximum` | internal/analyzer/graph_builder.go:47-54 | an ID's confidence is the greatest emitted and never drops during a run |
| `MergeOrder.MostConfidentSurvives` | internal/analyzer/merger.go:29-68 | a strictly most confident emission keeps its non-empty fields and properties in every order |
| `MergeOrder.SurvivingNode` | internal/analyzer/merger.go:29-34 | kind, name and confidence are those of the first most confident emission of the ID: a tie keeps the node already there |
| `MergeOrder.SurvivingEdge` | internal/analyzer/merger.go:79-92 | ID and confidence are those of the first most confident emission of the key |
| `MergeOrder.NodeSlotOrigin` | internal/analyzer/merger.go:29-68 | what the surviving node fills stays, and what nobody before filled comes from the first later emission that does |
| `MergeOrder.NodeValueIndependenceIsExact` | internal/analyzer/merger.go:36-68 | a field's or property's value is the same for every arrival order exactly when the emissions agree |
| `MergeOrder.ArrivalOrderCanDecideProperty` | internal/analyzer/merger.go:59-68 | three emissions whose order decides a property value |
| `ParserWalk.Walk` | internal/parser/walk.go:30-60 | the cursor loop terminates and visits the recursive pre-order, for visitors that may remember what they saw |
| `ParserWalk.Climb` | internal/parser/walk.go:47-58 | climbing stops at the nearest later sibling, or ends the walk at the root |
| `ParserWalk.PreOrderVisits` | internal/parser/walk.go:12-60 | a node is visited exactly when the visitor accepted all its ancestors |
| `DetectorWalk.Walker.Call` | internal/detector/base/treesitter.go:25-34 | the wrapped visitor refuses once its outermost flag is set and otherwise answers like the caller's |
| `DetectorWalk.Walker.WalkBelow` | internal/detector/base/treesitter.go:16-36 | below a root child the walk is pre-order up to the first rejection, which sets the flag |
| `DetectorWalk.Walker.WalkRoot` | internal/detector/base/treesitter.go:16-36 | the visits of the whole recursion with its nested closures and flags |
| `DetectorWalk.RootWalkIsCutPerChild` | internal/detector/base/treesitter.go:12-36 | the root, then, if accepted, each root child's pre-order cut just after its first rejected node |
| `DetectorWalk.FindAllByType` | internal/detector/base/treesitter.go:52-62 | all matches in pre-order |
| `DetectorWalk.MatchesAreExact` | internal/detector/base/treesitter.go:47-57 | the matches are the nodes of the type at exactly their positions, in order |
| `DetectorWalk.FlatIsExact` | internal/detector/base/treesitter.go:26-44 | the pre-order holds exactly the nodes that named-child indices lead to |
| `DetectorWalk.FlatAscends` | internal/detector/base/treesitter.go:26-44 | it visits ancestors first and siblings in order |
| `DetectorWalk.FindFirstByType` | internal/detector/base/treesitter.go:38-50 | the last match the walk visits |
| `DetectorWalk.LastChildWins` | internal/detector/base/treesitter.go:38-50 | that is the first match of the last root child that has one |
| `DetectorWalk.FirstByTypeIsExact` | internal/detector/base/treesitter.go:38-50 | it is the first match in pre-order exactly when the root matches or no two root children hold matches |
| `DetectorWalk.SecondChildIsReturned` | internal/detector/base/treesitter.go:38-50 | a tree whose second match is returned |
| `Linker.Sorted` | internal/analyzer/linker/linker.go:21-29 | a permutation sorted by ID |
| `Linker.Group` | internal/analyzer/linker/topic_linker.go:44-62 | grouping loops: each key's list holds the values of the items with that key, in order |
| `CodeModel.ClosedGrows` | internal/analyzer/enrich.go:140-148 | appending nodes, and edges between present nodes, leaves no edge dangling |
| `Linker.KeyMeansEdge` | internal/analyzer/linker/module_containment_linker.go:45-50 | with separator-free sources a joined key is present exactly when the edge is |
| `TopicLinker.Link` | internal/analyzer/linker/topic_linker.go:43-106 | the nested loops over sorted labels, producers and consumers give the link list |
| `TopicLinker.LinksAreExact` | internal/analyzer/linker/topic_linker.go:40-106 | the list holds exactly the triples of a label, a producer and a different consumer that each touch a topic of that label |
| `TopicLinker.OneEdgePerLink` | internal/analyzer/linker/topic_linker.go:83-105 | exactly one CALLS edge per triple, in label, producer, consumer order |
| `TopicLinker.TopicEdgesAreExact` | internal/analyzer/linker/topic_linker.go:84-103 | the emitted edges, field by field |
| `TopicLinker.OnlyMessagingMatters` | internal/analyzer/linker/topic_linker.go:43-106 | the result depends only on which topic nodes and messaging edges there are |
| `TopicLinker.TopicEdgesAreClosed` | internal/analyzer/linker/topic_linker.go:86-104 | the emitted edges join present nodes |
| `ModuleContainmentLinker.Link` | internal/analyzer/linker/module_containment_linker.go:26-92 | module nodes for modules without one and one edge per new key, in module and member order |
| `ModuleContainmentLinker.WantedIsExact` | internal/analyzer/linker/module_containment_linker.go:34-40 | the wanted pairs are those of non-module nodes that name a module |
| `ModuleContainmentLinker.FreshKeysDiffer` | internal/analyzer/linker/module_containment_linker.go:76-88 | no two new pairs share a joined key |
| `ModuleContainmentLinker.NewNodesAreExact` | internal/analyzer/linker/module_containment_linker.go:60-72 | one node, field by field, for every module that is named and has none |
| `ModuleContainmentLinker.NewEdgesAreExact` | internal/analyzer/linker/module_containment_linker.go:74-90 | one edge, field by field, for the first wanted pair of every key that no CONTAINS edge has |
| `ModuleContainmentLinker.EveryModuleHasANode` | internal/analyzer/linker/module_containment_linker.go:60-72 | afterwards every named module has its MODULE node |
| `ModuleContainmentLinker.SecondRunAddsNothing` | internal/analyzer/linker/module_containment_linker.go:13-15 | the linker is idempotent |
| `ModuleContainmentLinker.EveryMemberContainedIff` | internal/analyzer/linker/module_containment_linker.go:74-89 | every member has its CONTAINS edge exactly when each wanted pair is there already or has a key of its own |
| `ModuleContainmentLinker.SeparatorFreeNamesSuffice` | internal/analyzer/linker/module_containment_linker.go:74-89 | so it has when module names and CONTAINS sources are free of the separator |
| `ModuleContainmentLinker.SeparatorInNamesHidesMember` | internal/analyzer/linker/module_containment_linker.go:76-79 | two nodes one of which is left out |
| `ModuleContainmentLinker.IdsStayUniqueIff` | internal/analyzer/linker/module_containment_linker.go:27-32 | node IDs stay unique exactly when no other node has a new module's ID |
| `ModuleContainmentLinker.ClassWithModuleIdIsDuplicated` | internal/analyzer/linker/module_containment_linker.go:60-72 | a class whose ID is that of a module named elsewhere: afterwards two nodes have the ID |
| `ModuleContainmentLinker.StaysClosed` | internal/analyzer/linker/module_containment_linker.go:60-91 | a closed graph stays closed |
| `EntityLinker.Link` | internal/analyzer/linker/entity_linker.go:32-96 | the edges of the repositories in ID order |
| `EntityLinker.LinkOne` | internal/analyzer/linker/entity_linker.go:71-93 | the first matching suffix decides, whether or not an entity is found |
| `EntityLinker.LookupIsExact` | internal/analyzer/linker/entity_linker.go:46-56 | a name is found exactly when some entity goes by its label or simple name |
| `EntityLinker.AddedEdgesAreExact` | internal/analyzer/linker/entity_linker.go:69-94 | the added edges are exactly those of wanted pairs whose key is not there |
| `EntityLinker.QueriesAreExact` | internal/analyzer/linker/entity_linker.go:65-94 | the added edges, field by field: from a repository to the entity its label points at |
| `EntityLinker.WantedIsPointedAt` | internal/analyzer/linker/entity_linker.go:45-79 | a label points at the last entity that goes by what is left of it without the first of the four suffixes it ends in |
| `EntityLinker.OneEdgePerRepository` | internal/analyzer/linker/entity_linker.go:65-94 | with unique IDs each repository adds at most one edge, in ID order |
| `EntityLinker.SecondRunAddsNothing` | internal/analyzer/linker/entity_linker.go:28-31 | the linker is idempotent |
| `EntityLinker.EveryRepositoryLinkedIff` | internal/analyzer/linker/entity_linker.go:80-83 | every repository is linked to its entity exactly when each wanted pair is linked already or has a new key |
| `EntityLinker.LookupIgnoresOrder` | internal/analyzer/linker/entity_linker.go:46-56 | a shuffle of the nodes changes no lookup when no two entities share a name |
| `EntityLinker.AddedEdgesAreClosed` | internal/analyzer/linker/entity_linker.go:84-91 | the emitted edges join present nodes |
| `LinkerPasses.RunLinkers` | internal/analyzer/enrich.go:137-148 | although each linker sees what earlier ones appended, the result is the snapshot with what each gives on the snapshot alone, each linker's part appended in ID order |
| `LinkerPasses.LinkingStaysClosed` | internal/analyzer/enrich.go:133-148 | a closed snapshot stays closed |
| `LinkerPasses.LinkedIdsUniqueIff` | internal/analyzer/enrich.go:137-148 | node IDs stay unique exactly when no other node has a new module's ID |
| `LinkerPasses.SecondPassRepeatsTopicsOnly` | internal/analyzer/enrich.go:137-148 | linking again adds nothing but the same topic edges |
| `BuildFiles.ModuleTable.RegisterModule` | internal/analyzer/service_detector.go:294-312 | the table after an offer |
| `BuildFiles.ModuleTable.Walk` | internal/analyzer/service_detector.go:247-289 | the table after a walk is the fold of the offers of its files |
| `BuildFiles.DirectoriesAreIndependent` | internal/analyzer/service_detector.go:264-286 | what a directory ends up with depends on its own files only |
| `BuildFiles.SurvivorWins` | internal/analyzer/service_detector.go:291-312 | the file left for a directory is the winner among its offers, described without replaying them |
| `BuildFiles.WinnerIsUnique` | internal/analyzer/service_detector.go:291-312 | there is only one winner |
| `BuildFiles.WalkLeavesWinners` | internal/analyzer/service_detector.go:244-312 | after any walk a directory has an entry exactly when it held a build file, and it is its winner |
| `BuildFiles.PythonDirectory` | internal/analyzer/service_detector.go:299-306 | fed only Python files, a directory keeps the first of least priority index |
| `BuildFiles.PriorityIsPlace` | internal/analyzer/service_detector.go:299-306 | a Python build file's priority is its place in the list |
| `BuildFiles.SupplementalBeforePythonStays` | internal/analyzer/service_detector.go:296-301 | a supplemental file met before Python files keeps the directory |
| `BuildFiles.DockerfileHidesPyproject` | internal/analyzer/service_detector.go:296-301 | a directory with both counts as a docker service |
| `ServiceDetector.SortDirs` | internal/analyzer/service_detector.go:149-160 | all directories, longest first, ties by name |
| `ServiceDetector.MatchDir` | internal/analyzer/service_detector.go:190-206 | the first match is the deepest directory that contains the path |
| `ServiceDetector.ContainsBySegments` | internal/analyzer/service_detector.go:193-199 | a directory contains a path exactly when it is the root or its path segments begin the path's |
| `ServiceDetector.HomeIsUnique` | internal/analyzer/service_detector.go:193-199 | the deepest directory containing a path is unique |
| `ServiceDetector.SomeHome` | internal/analyzer/service_detector.go:190-206 | a path has one whenever some module directory contains it |
| `ServiceDetector.Detect` | internal/analyzer/service_detector.go:139-235 | every node keeps all but its service property, which becomes the name of its home; one service node per module directory, deepest first, with the numbers of endpoint and entity nodes whose home bears its name; one CONTAINS edge per node with a home, in node order |
| `ServiceDetector.DetectedMeans` | internal/analyzer/service_detector.go:160-235 | the same, field by field, without the functions the pass computes with |
| `ServiceDetector.ServiceNameIs` | internal/analyzer/service_detector.go:163 | the name read from the build file; without one the project's name for the root, the last path segment elsewhere |
| `ServiceDetector.OneEdgePerContainedNode` | internal/analyzer/service_detector.go:189-222 | with unique IDs the edges into a node are the one from its home, or none |
| `ServiceDetector.CountIsOwnIff` | internal/analyzer/service_detector.go:223-233 | a service's count is its own directory's exactly when no namesake directory holds a node of the kind |
| `ServiceDetector.DetectStaysClosed` | internal/analyzer/service_detector.go:189-234 | a closed graph stays closed |
| `ServiceDetector.ServiceIdsCollideIff` | internal/analyzer/service_detector.go:445-452 | two services share an ID exactly when directory and name of one split the other's at a colon |
| `ServiceDetector.ColonInDirectoryCollides` | internal/analyzer/service_detector.go:445-452 | `b:c` in directory `a` and `c` in directory `a:b` get one ID |
| `ServiceDetector.ColonFreeDirsKeepIdsApart` | internal/analyzer/service_detector.go:445-452 | modules in colon-free directories never share an ID |
| `LanguageEnricher.BuildTasks` | internal/intelligence/extractor/enricher.go:49-91 | one task per supported file, in path order, with the positions of its nodes |
| `LanguageEnricher.FilesPartitionNodes` | internal/intelligence/extractor/enricher.go:49-91 | no node belongs to two tasks and every node of a supported file to one |
| `LanguageEnricher.TasksAreExact` | internal/intelligence/extractor/enricher.go:49-91 | one task per supported file with an eligible node, in path order, each with all its eligible nodes in order |
| `EnricherSchedules.StepStaysGood` | internal/intelligence/extractor/enricher.go:105-153 | every step of every goroutine keeps the invariant: a task touches its own nodes and slot only |
| `EnricherSchedules.SchedulesAgree` | internal/intelligence/extractor/enricher.go:96-157 | any two schedules that finish leave the same nodes and slots |
| `EnricherSchedules.SlotsBoundTrees` | internal/intelligence/extractor/enricher.go:98-109 | in every reachable state at most as many trees are open as slots are taken, and at most as many slots are taken as the semaphore has |
| `EnricherSchedules.FreedMeansFinished` | internal/intelligence/extractor/enricher.go:108-151 | once a task has given its slot back, its tree is no longer among the open ones and its output slot is final |
| `EnricherSchedules.NoDeadlock` | internal/intelligence/extractor/enricher.go:105-154 | until all have signalled, some task can step |
| `EnricherSchedules.SchedulesAreBounded` | internal/intelligence/extractor/enricher.go:105-154 | no schedule goes on for ever |
| `EnricherSchedules.RunTasks` | internal/intelligence/extractor/enricher.go:102-154 | whatever task the scheduler picks, the run ends with all slots filled and all hints written |
| `EnricherSchedules.EnrichedMeans` | internal/intelligence/extractor/enricher.go:134-151 | each node with a result carries that result's hints, which overwrite, and is otherwise as it was; a task's slot holds the results' edges in node order, calls before references |
| `EnricherSchedules.Enrich` | internal/intelligence/extractor/enricher.go:33-158 | the files' edges are appended in path order, each node gets its own file's hints, other nodes are untouched |
| `EnrichPasses.OnlyExtractorEdgesCanDangle` | internal/analyzer/enrich.go:133-181 | from a closed snapshot and what the passes give, the loaded graph has a dangling edge exactly when an extractor emitted one |
| `EnrichPasses.DetectedFlows` | internal/analyzer/enrich.go:170-178 | what `Detect` returns stamps every node, holds a service node for every module and the edges of the contained nodes |
| `EnrichPasses.Build` | internal/analyzer/enrich.go:131-178 | snapshot, linkers, language enricher and service detection run one after the other: the loaded nodes and edges are exactly the listed parts, each described field by field and each without repetition where its pass gives none; a dangling edge exactly when an extractor emitted one |
| `EnrichPasses.LoadedEdgesAre` | internal/analyzer/enrich.go:131-178 | an edge is loaded exactly when it was buffered without dangling, belongs to a linked triple, a repository's entity or the first pair of a new containment key, stands in an extractor's slot, or goes from a node's home to it |
| `EnrichPasses.LoadedNodesCarryHomes` | internal/analyzer/enrich.go:131-178 | every snapshot or module node is loaded with its own fields and the name of its home |
| `EnrichPasses.PartsAreExact` | internal/analyzer/enrich.go:137-148 | what each linker appends: every node or edge it stands for, once |
| `DiffParser.Parser.Line` | internal/review/diff.go:50-95 | one turn of the line loop |
| `DiffParser.ParseDiff` | internal/review/diff.go:35-104 | the scan of the whole text; a line that does not fit the buffer fails the parse |
| `DiffTexts.FilesStayKept` | internal/review/diff.go:50-95 | every further line, well-formed or not, keeps one file per section, named and counted by the lines of its own section |
| `DiffTexts.ParsedTextIsKept` | internal/review/diff.go:35-104 | any text that is parsed leaves one file per header, and the files' hunks one after the other are exactly the hunk lines in order; lines before the first header stand in the first file's hunks |
| `DiffRoundTrip.PatchFed` | internal/review/diff.go:50-99 | a printed patch closes the file before it and leaves its own, with path, hunks and counts |
| `DiffRoundTrip.PatchesFed` | internal/review/diff.go:50-99 | every printed patch becomes one file, in order |
| `DiffRoundTrip.HeaderPathIs` | internal/review/diff.go:58-66 | the path read from the first line is the new name when the old one has no space, and a longer text otherwise |
| `DiffRoundTrip.PathIff` | internal/review/diff.go:58-72 | the path is right exactly when the new name line carries it alone, or there is none and the old name has no space |
| `DiffRoundTrip.PatchSurvivesIff` | internal/review/diff.go:50-99 | one patch is read back as meant exactly when its path survives and no body line looks like a name line or ends in a carriage return |
| `DiffRoundTrip.RoundTripIff` | internal/review/diff.go:32-104 | printing any list of patches and parsing gives back paths, hunk texts and counts exactly when every line fits the scanner and every patch survives |
| `DiffRoundTrip.GitPathSurvivesIff` | internal/review/diff.go:58-72 | with the tab git puts after a new name that holds a space, a path is read back exactly when the name it is read from holds no space and no carriage return ends it |
| `DiffRoundTrip.GitRoundTripIff` | internal/review/diff.go:32-104 | the round trip of what git prints, with that condition on paths |
| `DiffRoundTrip.AddedIncrementIsLost` | internal/review/diff.go:83-87 | a file with one added line `++i;` is read back with no added line |
| `Strings.JoinIsInjective` | internal/query/topology.go:476 | joined name lists are equal only when the lists are, for names free of the separator |
| `Strings.LessIsBytewise` | internal/query/topology.go:608 | a proper prefix comes first, otherwise the first differing character decides |
| `Strings.SortedKeys` | internal/analyzer/linker/topic_linker.go:108-116 | the keys of a set in ascending order |
| `Strings.SortById` | internal/analyzer/linker/module_containment_linker.go:74 | sorting by an identifier: an ascending permutation, equal identifiers in no particular order |

## Left out

- CircularDependencies.FindCircular: that every cycle shares an edge with a reported one is an exact condition only for graphs no two cycles of which share an edge (`CoverageIffKeysDistinguish`); in other graphs distinct keys suffice, and without them the joined keys are covered instead.
- GraphBuilder.Builder.Snapshot: edges are sorted by ID only, and distinct edges can share an ID, so the order is a sorted permutation and no unique one.
- GraphBuilder.Builder.Add: the nodes and edges handed over are distinct objects that the builder owns from then on; the mutex is the atomicity of the call.
- CacheStore.Cache.Get: edge rows come back in row order, which SQLite does not promise without ORDER BY.
- Analyzer.EveryHistoryOfTablesIsSound: a purge that fails is only logged and the run goes on; every purge is taken to succeed here, as it does on well-formed tables.
- Analyzer.Worker.Run: the method runs one worker; all interleavings of many are covered by the state machine, with an unbounded pool.
- Analyzer.Worker.ProcessFile: the stored entry holds the values as detected; in the source the same objects went to the builder before, whose merges may have filled empty slots (`CachedEntriesKeepDetections` covers that on the tables).
- Enrich.Store.Enrich: the graph is one opaque value of the cached rows; the passes that compute it are modelled on their own.
- EnrichPasses.Build: the passes before service detection run on values, and the nodes it stamps are new objects with those values; layer classification and lexical enrichment, which touch properties only, are left out.
- IndexEquivalence.AgreementIsExact: entries are compared by path, hash, node IDs and edge keys, not by property values, because the same objects go to the builder and to the cache.
- EntityLinker.Link: with repositories that share an ID the order among them is open, as `sort.Slice` leaves it.
- ModuleContainmentLinker.Link: missing module nodes are collected in a loop of their own; the source does it in the loop that adds the edges.
- DetectorWalk.FindAllByType: the captured result list is filled from the record of visits after the walk; a nil root and a nil visitor are not modelled.
- ParserWalk.Climb: the inner loop of the source is a method of its own here; a nil root and a nil visitor are not modelled.
- ServiceDetector.Detect: the name read from a build file is a parameter, and the files outside pruned directories are given as a list in walk order.
- EnricherSchedules.Enrich: nodes are positions in a list, so the same object listed twice is not modelled; the registry the extractors read is taken as fixed; language detection and the minified test are part of the parameters.
- DiffRoundTrip.RoundTripIff: git's extended header lines are only assumed not to look like one of the parser's cases; quoted paths are not printed.
- The Cypher queries, SQLite, Kuzu, tree-sitter and the MCP server are foreign code; tables are maps and sequences, the graph store a value with a manifest.
- `crossServiceConnections` is the input of the two searches; its query and its deduplication are not modelled.
- Layer classification, lexical enrichment, detectors, language extractors, regex name extraction and CSV loading: pattern matching or plain field updates.
- Files that cannot be read are absent from a run's job list; `Diff` models them.
- The `language` and `parsed_at` columns, log output, timestamps, limits and the other topology queries.
- Command wiring, configuration, network and process calls.
