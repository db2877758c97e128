# claw-branch: a verified model

claw-branch is a branch engine for agent databases. Branches form a lineage graph; each branch is its own
database; branches are compared row by row, merged three-way under a strategy, and promoted selectively. This
project models the parts of it that compute something, with the databases and the file system replaced by maps and
sets, and proves what they promise.

**Lineage.** `DirectedGraph` is a node array with an edge list; removing a node moves the last node into the hole.
`LineageGraph.DagGraph` is the indexed graph of `src/dag/graph.rs` with its insert, cycle check and undo.
`Traversal`, `PathEnumeration` and `MergeOrdering` are the searches that read it; `EdgeOrdering` and
`DagPersistence` store it in two tables and rebuild it with Kahn's algorithm. `Paths` holds the theory all of this
is stated in: reachability, acyclicity, forests, depths. The main results: every insertion keeps the graph sound
and is refused exactly on a cycle; the two independent merge-base searches agree on every forest; path enumeration
is exact; loading succeeds exactly on acyclic rows and gives back what was saved.

**Union merge.** `UnionMerge` is the recursive JSON merge (values as in section 3 of RFC 8259). `UnionLaws`,
`UnionAlgebra`, `UnionAbsorption` and `UnionAssociativity` prove its laws. Call a value well-formed when no array at
any depth repeats an identity. Under any inherited timestamps: a value merges with itself to itself *exactly* when it
is well-formed; a merged array of well-formed items is free of repetitions *exactly* when both inputs are; for values
of any shape, merging the same value in a second time changes nothing *exactly* when `Absorbs` holds, which compares
the timestamps of the first and the second merge position by position; for well-formed values, bracketing is
irrelevant *exactly* on the triples that `Associates` describes, which does the same for the four merges of the two
bracketings. Without timestamps, a well-formed value is always absorbed, and `Associates` becomes the simpler
`PlainAssociates`. Key paths of either side are kept *exactly* when they survive the nearest timestamps.

**Diff, merge, commit.** `BranchDiff`, `FieldSimilarity`, `ConflictResolution`, `MergeApplication`,
`ThreeWayMerge`, `BranchMerge`, `RepeatedMerge`, `BranchEngine` and `SelectiveCommit`. The outcome of a merge is
described completely: when it is refused, with which conflicts, and which row every key has afterwards, whatever the
order in which hash maps deliver entities and fields; and when a second merge of the same branches changes anything. A
commit is an exact overlay on the target as it was before the transaction.

**Readings.** `UnionReadings`, `TimestampText`, `DiffReadings`, `MergeReadings`, `CommitReadings`, `SlugReadings` and
`LifecycleHistory` describe the same behaviour a second time, by the values in the databases, the characters of the
texts and the events of the runs, without the functions the code is modelled with, and prove that the two descriptions
agree: which texts are timestamps; what a diff lists and counts; what a conflict reports, when a merge or a commit
fails and which value every column has afterwards; which names are valid and how a slug comes about; which state, name
and parent every branch of a run has, and when it is purged.

**Lifecycle.** `Naming` covers names and slugs. `BranchLifecycle.Workspace` is the machine of registry, lineage,
snapshot directories and clock; each method performs one `Step`, and `LifecycleRuns` proves what holds in every
finite run of steps from an empty workspace; `LifecycleExamples` holds three concrete runs.

## Where the code and its documentation differ

The model follows the code. The proofs make these differences precise:

- `src/engine.rs:366-370` says a merge writes the target. The engine passes the source as "ours", so the source is
  written (`BranchEngine.Merge`). As the base is the source's parent, merging a branch into its parent compares the
  target with itself and never changes a row.
- `src/merge/resolver.rs:88` says arrays become a deduplicated union. Repetitions within one input stay: a merged
  array of well-formed items is free of them exactly when both inputs are (`UnionLaws.DistinctIffBothDistinct`);
  merging `[true, true]` with itself gives three items (`UnionLaws.RepeatedItemStays`).
- `src/merge/three_way.rs:203` says theirs wins on overlapping fields; the entry of ours is kept
  (`ConflictResolution.MergeFieldDiffs`). The combined entry is then written nowhere.
- A merge does not reproduce the rows of theirs: only changed columns are written and the rest become null.
  `BranchMerge.RowOfTheirsReproduced` says exactly when a written row equals the row of theirs;
  `BranchMerge.AddedRowArrivesEmpty` is a row that does not.
- Under the union strategy a clashing field writes nothing, although it counts as applied: the union of two cells
  is a scalar and only objects are written (`BranchMerge.ResolutionEffect`, `BranchMerge.MergeFrame`).
- `README.md:69` says the trunk is never discarded. `src/branch/lifecycle.rs:210-228` discards any live branch
  (`LifecycleExamples.TrunkDiscarded`). In every run a branch, the trunk as any other, is discarded or purged exactly
  when some event discarded it while it was live (`LifecycleRuns.GoneIffDiscarded`).
- The live-branch limit is checked by `fork` alone, and a restore can exceed it
  (`LifecycleExamples.RestorePastLimit`: three live branches where two are allowed). A run keeps the limit exactly
  when no restore succeeds with the limit already reached (`LifecycleRuns.LimitKeptIff`), and it exceeds the limit by
  no more than one branch for each restore (`LifecycleRuns.LiveBound`).
- Merging the same branches again can change the database: changes are matched by identifier alone, so a row that the
  first merge left to ours can be given to theirs by the second (`RepeatedMerge.TakenSecondTime`).
  `RepeatedMerge.MergeAgain` has the exact condition; it cannot happen when no identifier is changed in two tables
  (`RepeatedMerge.MergeAgainSettles`).
- A second trunk is refused only after its snapshot directory was made, so the directory stays behind
  (`LifecycleExamples.SecondTrunk`). In every run the orphaned directories are those of all trunks asked for after the
  first; there are none exactly when a trunk is asked for at most once (`LifecycleRuns.OrphansAreStrays`).
- Removing a branch from the lineage graph can leave its index wrong (`LineageGraph.StaleIndex`); it stays exact only
  for the node with the last index (`LineageGraph.DagGraph.RemoveNode`).
- `slugify` is not idempotent, not even on names that pass validation (`Naming.SlugNotIdempotent`);
  `Naming.SlugIdempotent` has the exact condition on the trimmed scan output.
- Merging the same value in twice is not always merging it in once, even for well-formed values
  (`UnionAbsorption.AbsorptionCounterexample`); `UnionAbsorption.AbsorptionExact` has the exact condition for all
  values. Nor is the bracketing of two merges irrelevant (`UnionAssociativity.AssociativityCounterexample`,
  `UnionAssociativity.StampedCounterexample`); `UnionAssociativity.Associativity` has the exact condition for
  well-formed values.

## Model

| member | source | states |
|---|---|---|
| LineageGraph.DagGraph.EnsureOrInsert | src/dag/graph.rs:324-332 | a registered node is left alone, a new one is appended; the index stays the inverse of the node array |
| LineageGraph.DagGraph.AddNode | src/dag/graph.rs:63-71 | the nodes gain exactly this identifier, the edges nothing; adding twice is adding once |
| LineageGraph.DagGraph.AddEdgeMeta | src/dag/graph.rs:113-147 | refused exactly when parent equals child or a path leads from child to parent, and then nodes, edges and index are as before; otherwise exactly this edge is added, an existing edge keeps its metadata; soundness (no cycle, no parallel edge, exact index) is kept |
| LineageGraph.DagGraph.Connect | src/dag/graph.rs:129-146 | between registered nodes: existing edge kept, closing edge refused without trace, else appended |
| LineageGraph.DagGraph.InsertUnlessCyclic | src/dag/graph.rs:134-146 | inserting, checking and undoing leaves either the one new edge or exactly the old graph |
| LineageGraph.IsCyclicDirected | src/dag/graph.rs:137-144 | true exactly when the edge relation has a cycle |
| Paths.AddEdgeAcyclic | src/dag/graph.rs:134-146 | adding an edge keeps a graph acyclic if and only if its end does not reach its start |
| LineageGraph.DagGraph.RemoveNode | src/dag/graph.rs:74-92 | fails exactly for an unknown node or one with children, naming the number of children, and then changes nothing; otherwise removes the node and its edges, and all other edges keep their metadata; the index stays exact if and only if the node had the last index |
| LineageGraph.StaleIndex | src/dag/graph.rs:74-92 | two insertions and the removal of the first node succeed and leave an index that points past the one remaining node |
| LineageGraph.RemovedIndex | src/dag/graph.rs:74-92 | dropping one key matches the moved node array exactly when the removed node was last |
| LineageGraph.WalkUp | src/dag/graph.rs:179-197 | the stack walk sees exactly the strict ancestors and lists each once; in a forest the list is the parent chain |
| LineageGraph.DagGraph.AncestorsOf | src/dag/graph.rs:179-197 | all strict ancestors without repetition; in a forest, reversed and followed by the branch, the path from a root |
| LineageGraph.DagGraph.IsAncestor | src/dag/graph.rs:224-230 | true exactly when a path leads down, and for equal identifiers, registered or not |
| LineageGraph.DagGraph.FindMergeBase | src/dag/graph.rs:202-221 | a common ancestor, none only if there is none, errors for unknown branches; in a forest the lowest |
| LineageGraph.DagGraph.DepthOf | src/dag/graph.rs:256-290 | the length of a shortest path from any parentless node; defined for every registered branch |
| LineageGraph.RootPathExists | src/dag/graph.rs:256-290 | every node of an acyclic graph hangs below a parentless node |
| Traversal.BfsDepthMap | src/dag/traversal.rs:173-192 | a depth for exactly the registered branches, each the shortest distance from a parentless node |
| Paths.DepthUnique | src/dag/traversal.rs:173-192 | so the search by index and the search by identifier agree |
| Traversal.DepthIsAncestorCount | src/dag/graph.rs:178-197 | in a forest a branch is as deep as it has ancestors |
| Traversal.DfsAncestorSet | src/dag/traversal.rs:194-210 | exactly the strict ancestors, an error for an unknown branch |
| Traversal.LowestCommonAncestor | src/dag/traversal.rs:63-92 | the deepest common ancestor, the smaller identifier on a tie; none only if there is none; in a forest the merge base |
| Traversal.MaxByDepth | src/dag/traversal.rs:76-90 | the chosen element beats every other by depth, then by identifier |
| Traversal.ForestTieBreakUnused | src/dag/traversal.rs:76-90 | in a forest two different common ancestors never have equal depth |
| Traversal.MergeBaseUnique | src/dag/graph.rs:202-221 | errors included, a forest has only one answer to a merge-base query |
| Traversal.BothMergeBases | src/dag/traversal.rs:63-92 | on every forest the chain scan and the deepest-element search return the same result |
| Paths.FirstSharedIsLowest | src/dag/graph.rs:202-221 | in a forest the first shared ancestor on the way up has every other common ancestor above it |
| Paths.DeepestByDepthIsLowest | src/dag/traversal.rs:63-92 | in a forest so does the shared ancestor of greatest depth |
| Traversal.DivergenceDepth | src/dag/traversal.rs:128-135 | how much deeper the branch is than the deepest node it shares, truncated at zero; in a forest the number of edges from the merge base, with nothing truncated |
| Traversal.ForestHops | src/dag/traversal.rs:128-135 | in a forest every path from an ancestor has exactly the difference of the depths as length |
| PathEnumeration.DfsPaths | src/dag/traversal.rs:150-171 | appends exactly the simple completions of the current path, each once, and restores the visited set and the path |
| PathEnumeration.AllPaths | src/dag/traversal.rs:41-55 | exactly the simple paths between the two branches, each once; errors for unknown branches |
| PathEnumeration.AllPathsAreSimple | src/dag/traversal.rs:41-55 | on a sound graph every path is simple, so no path is missed |
| MergeOrdering.TopologicalSort | src/dag/traversal.rs:27-36 | an order of all nodes with parents first, or an error naming a node that lies on a cycle, exactly when there is one |
| MergeOrdering.MergeOrder | src/dag/traversal.rs:138-145 | the requested registered branches, each once, none before one of its ancestors |
| EdgeOrdering.BuildTables | src/dag/serializer.rs:168-179 | per branch the outgoing edges in row order and the number of incoming edges |
| EdgeOrdering.ReleaseChildren | src/dag/serializer.rs:186-197 | lists the edges out of a finished branch, lowers the degrees to the number of edges not yet listed and queues the branches that become free |
| EdgeOrdering.TakeEdge | src/dag/serializer.rs:191-192 | the degree of the child of an edge not yet listed is there and positive, so neither the default nor the saturation applies |
| EdgeOrdering.KahnOrder | src/dag/serializer.rs:166-204 | every edge index exactly once; the part found by the loop lists every edge into a branch before any edge out of it; the loop covers everything if and only if the rows are acyclic |
| EdgeOrdering.ReachedAll | src/dag/serializer.rs:185-204 | when the queue is empty, all edges are listed if and only if the rows are acyclic |
| EdgeOrdering.ParentsFirstIsAcyclic | src/dag/serializer.rs:166-204 | conversely such an order of all edges exists only for acyclic rows |
| EdgeOrdering.AppendMissing | src/dag/serializer.rs:199-204 | completes a partial order to one of all edges, keeping it as prefix |
| DagPersistence.DagSerializer.SaveGraph | src/dag/serializer.rs:44-75 | storing any sound graph row by row adds the missing rows and keeps every existing one; the rows of its workspace are then exactly the graph if and only if it has all rows the workspace had and no branch stored for another one, and then other workspaces are as before |
| DagPersistence.DagSerializer.SaveEdge | src/dag/serializer.rs:59-75 | a new row is stored without merge cursor, an existing one kept, one without stored ends refused |
| DagPersistence.DagSerializer.LoadGraph | src/dag/serializer.rs:111-212 | succeeds exactly when the edges within the workspace are acyclic, and then yields exactly the stored nodes, edges and metadata |
| DagPersistence.AddEdges | src/dag/serializer.rs:206-209 | inserting in any order of all rows succeeds exactly on acyclic rows |
| DagPersistence.DagSerializer.SaveThenLoad | src/dag/serializer.rs:44-212 | saving a sound graph and loading its workspace gives the graph back, with its metadata, if and only if it continues what the workspace had, edges stored before agree with their rows, and new ones carry no merge cursor |
| DagPersistence.SavedMeta | src/dag/serializer.rs:59-75 | the rows hold the metadata of the graph exactly when that is so of edges stored before and new ones carry no merge cursor |
| UnionMerge.MergeWithTimestampContext | src/merge/resolver.rs:98-155 | the loops compute the recursive union, timestamps inherited downwards |
| UnionMerge.MergeObjects | src/merge/resolver.rs:105-133 | key by key: common keys merged under the nearest timestamps, others taken over |
| UnionMerge.MergeArraysByIdentity | src/merge/resolver.rs:157-191 | our items in order, each merged with its first match, then their unmatched items in order |
| UnionMerge.MergeJsonUnion | src/merge/resolver.rs:91-96 | the union with no inherited timestamps |
| UnionMerge.FirstMatch | src/merge/resolver.rs:166-170 | the least position with the same identity, none only if there is none |
| UnionLaws.SameIdentityIsEquality | src/merge/resolver.rs:193-203 | matching is equality of identities, hence an equivalence |
| UnionLaws.Idempotent | src/merge/resolver.rs:98-191 | a value without repeated identities merges with itself to itself, under any timestamps |
| UnionLaws.OnlyWellFormedIdempotent | src/merge/resolver.rs:98-191 | and only such a value does |
| UnionLaws.DistinctIffBothDistinct | src/merge/resolver.rs:157-191 | a merged array of well-formed items repeats no identity if and only if neither input does |
| UnionLaws.RepeatedItemStays | src/merge/resolver.rs:157-191 | a repeated item of one side comes through |
| UnionLaws.UnionWellFormed | src/merge/resolver.rs:98-191 | merging never creates repeated identities, under any timestamps |
| UnionLaws.MergedIds | src/merge/resolver.rs:157-191 | a merged array has our identities in our order followed by theirs that we lack, in their order |
| UnionLaws.MergedAt | src/merge/resolver.rs:157-191 | and under each identity the merge of what the sides hold there |
| UnionLaws.KeepsIdentity | src/merge/resolver.rs:157-203 | items matched by identity keep it when merged if and only if the identity itself is well-formed |
| UnionAlgebra.UnionNoStamp | src/merge/resolver.rs:98-191 | merging values without timestamps creates none |
| UnionAbsorption.AbsorptionExact | src/merge/resolver.rs:98-191 | for all values: merging the same value in again changes nothing if and only if, at every contested position, ours loses the first time, or still wins with the timestamp the first merge left, or the values are equal, and theirs repeats no identity where both have an array nor in what is taken over from it |
| UnionAbsorption.AbsorbItems | src/merge/resolver.rs:157-191 | for arrays: exactly if theirs repeats no identity, its identities and new items are well-formed, and every item with a partner is absorbed |
| UnionAbsorption.MergedStampOf | src/merge/resolver.rs:105-133 | the timestamp a merged object carries: that of the side whose value is taken |
| UnionAbsorption.Absorption | src/merge/resolver.rs:98-191 | so without timestamps merging a well-formed value in again changes nothing |
| UnionAbsorption.AbsorptionCounterexample | src/merge/resolver.rs:105-154 | with timestamps it can: a nested timestamp loses once and wins the second time |
| UnionAssociativity.Associativity | src/merge/resolver.rs:98-191 | for well-formed values under any timestamps, both bracketings give the same result if and only if Associates holds: position by position, with the timestamps of all four merges |
| UnionAssociativity.AgreeExact | src/merge/resolver.rs:98-191 | two well-formed values merge to the same under two pairs of timestamps if and only if at every contested position the same side wins or the values are equal |
| UnionAssociativity.PicksSideExact | src/merge/resolver.rs:98-191 | a merge of well-formed values is one of its sides if and only if the other adds no key and no item, changes no order, wins nothing contested and is nowhere the only side that is not null |
| UnionAssociativity.PlainAssociativity | src/merge/resolver.rs:98-191 | without timestamps, if and only if at every position all three share the kinds agree or merging the ends picks the winner |
| UnionAssociativity.AssociativityCounterexample | src/merge/resolver.rs:98-155 | a scalar between two objects breaks it |
| UnionAssociativity.StampedCounterexample | src/merge/resolver.rs:98-155 | a timestamp on the middle one of three objects breaks it |
| UnionAlgebra.NewestWins | src/merge/resolver.rs:98-155 | at the end of every key path where both hold values that cannot be merged, theirs wins exactly when its nearest timestamp is at least ours |
| UnionAlgebra.PathsFromInputs | src/merge/resolver.rs:104-154 | every key path of the result occurs in an input |
| UnionAlgebra.PathsKept | src/merge/resolver.rs:104-154 | a key path of an input is in the result if and only if the other side has no value in its way, or the input wins there by the nearest timestamps |
| UnionAlgebra.NoPathLost | src/merge/resolver.rs:104-154 | so no key path is lost unless the other side has a non-object on it |
| UnionReadings.PairedExactly | src/merge/resolver.rs:157-203 | two one-item arrays merge to one item exactly if both items are objects with equal "id", or have no such pair and are equal |
| UnionReadings.NewerObjectWins | src/merge/resolver.rs:91-155 | a contested field of two objects comes from the one with the newer "updated_at", theirs on a tie |
| UnionReadings.StampDecides | src/merge/resolver.rs:91-155 | a positive "updated_at" keeps the score of ours against an object without one and loses it to the same one |
| UnionReadings.DateIsNoStamp | src/merge/resolver.rs:205-212 | an "updated_at" of "2024-01-01" does not keep the score of ours |
| TimestampText.TextExactly | src/merge/resolver.rs:205-212 | a text is a timestamp if and only if it is an optional sign and one or more digits whose value is in the signed 64-bit range, and then it is that value |
| TimestampText.OtherCharacters | src/merge/resolver.rs:205-212 | so a text with any other character is none |
| TimestampText.ValuesExactly | src/merge/resolver.rs:205-212 | of the other values exactly the integers in that range are timestamps |
| TimestampText.TextMeansNumber | src/merge/resolver.rs:205-212 | a timestamp written in decimal, with or without sign, means the same as the number, and none when outside the signed 64-bit range |
| BranchDiff.CompareEntityValues | src/diff/extractor.rs:204-240 | one entry for exactly the differing fields, with both values; unchanged exactly when there is none |
| BranchDiff.Diff | src/diff/extractor.rs:37-110 | exactly one correct entry for every row of either side, tables in order; the counters count the rows of each kind |
| BranchDiff.Conservation | src/diff/extractor.rs:55-95 | added, removed, modified and unchanged sum to the total, which is the number of entries |
| BranchDiff.SwapWholeDiff | src/diff/extractor.rs:55-95 | turning every entry round gives a diff of the swapped branches |
| BranchDiff.SwapStats | src/diff/extractor.rs:55-97 | swapping the branches swaps added and removed and keeps the score |
| DiffReadings.EntryReads | src/diff/extractor.rs:55-110 | an entry is added, removed, modified or unchanged as the rows are there and their values agree, and lists exactly the fields with different values, each with both |
| DiffReadings.CountersRead | src/diff/extractor.rs:55-95 | each counter is the number of entries of its kind, the total that of all |
| DiffReadings.ScoreReads | src/diff/scorer.rs:58-64 | the score is the share of entries that are not unchanged, and 0 without entries |
| BranchDiff.ScoreRange | src/diff/scorer.rs:58-64 | the score lies in [0, 1] and is 0 if and only if every entry is unchanged |
| FieldSimilarity.SimilarityRange | src/diff/scorer.rs:33-54 | the similarity of two values lies in [0, 1] and is 1 if and only if they agree up to the form of numbers, null fields, and the order and repetition of array items |
| FieldSimilarity.SimilaritySymmetric | src/diff/scorer.rs:33-54 | swapping the values keeps the score, given that the string ratio does |
| DiffReadings.NumbersRead | src/diff/scorer.rs:77-80 | two numbers score one minus their distance relative to the larger absolute value, at least 1, and not below 0 |
| DiffReadings.ArraysRead | src/diff/scorer.rs:101-111 | two arrays score the share of common items among all items, two empty ones 1 |
| DiffReadings.ObjectsRead | src/diff/scorer.rs:82-99 | two different objects score the average over the fields of either, a missing one counting as null |
| DiffReadings.OthersRead | src/diff/scorer.rs:33-54 | equal values score 1; texts score 0 if one is empty and the ratio otherwise; values of different kinds score 0 |
| DiffReadings.WeightedReads | src/diff/scorer.rs:19-24 | added and removed rows count one and modified ones a half, of the rows of the base, of which there is at least one, up to 1 |
| FieldSimilarity.NumericRange | src/diff/scorer.rs:77-80 | the number score lies in [0, 1], is 1 exactly on equal numbers, and is symmetric |
| FieldSimilarity.AverageRange | src/diff/scorer.rs:82-99 | the field average lies in [0, 1] and is 1 exactly when every field scores 1 |
| FieldSimilarity.SumPut | src/diff/scorer.rs:90-98 | the sum over the fields does not depend on their order |
| FieldSimilarity.JaccardRange | src/diff/scorer.rs:101-111 | the array score lies in [0, 1], is 1 exactly on arrays with the same items, and is symmetric |
| FieldSimilarity.WeightedScoreRange | src/diff/scorer.rs:19-24 | the weighted score lies in [0, 1] and is 0 exactly when nothing changed |
| BranchDiff.ReconstructRow | src/merge/applier.rs:194-204 | for a modified row, the recorded changes laid over the old row give the new row |
| ConflictResolution.DetectConflicts | src/merge/conflict.rs:10-57 | one conflict for exactly the fields both sides changed to different values; none for different identifiers |
| ConflictResolution.MergeFieldDiffs | src/merge/three_way.rs:204-219 | the combined changes are those of theirs overlaid by those of ours |
| ConflictResolution.EffectiveIsEnd | src/merge/resolver.rs:47-61 | following per-field maps always ends, at the effective strategy |
| ConflictResolution.EndIsUnique | src/merge/resolver.rs:47-61 | and nowhere else |
| ConflictResolution.ResolveByEnd | src/merge/resolver.rs:30-69 | a conflict is decided by the strategy at the end of its field's chain of maps, and escalates if and only if that is manual |
| MergeApplication.BranchDatabase.ApplyBatch | src/merge/applier.rs:51-80 | all changes or none; returns the number of changes other than keeping ours |
| MergeApplication.ReplayRows | src/merge/applier.rs:51-125 | a batch that follows a plan fails exactly when a write does not fit its table; otherwise touched rows are as planned and all others as before |
| MergeApplication.UnresolvedOnlyIfEscalated | src/merge/applier.rs:62-66 | the unresolved-conflict error comes only from an escalated change |
| MergeApplication.ReconstructFromFieldDiffs | src/merge/applier.rs:194-204 | the identifier and the last recorded value of every field |
| ThreeWayMerge.IndexById | src/merge/three_way.rs:68-73 | maps each identifier to the last changed entry that has it |
| ThreeWayMerge.LastIsLatest | src/merge/three_way.rs:68-73 | that entry belongs to the last table in which ours changed the identifier, whatever the row order |
| ThreeWayMerge.EntryChanges | src/merge/three_way.rs:222-237 | what an entry reconstructs to is the identifier and exactly the fields the two databases differ in |
| ThreeWayMerge.ListsAgree | src/merge/three_way.rs:171-197 | lists of the same clashes agree as multisets; fewer clashes give a smaller multiset |
| BranchMerge.TheirsOnlyDecided | src/merge/three_way.rs:106-110 | for an entity only theirs changed, the resolution carries out the plan: erase a removed row, write an object with the identifier and exactly the changed fields otherwise |
| BranchMerge.ResolutionEffect | src/merge/resolver.rs:30-69 | a clash writes a row exactly when its field is given to theirs |
| BranchMerge.ResolveBatch | src/merge/three_way.rs:91-103 | the conflicts of an entity end up as its unresolved clashes and as changes that carry out the plan |
| BranchMerge.DecideEntity | src/merge/three_way.rs:83-110 | the same for all three cases of an entity: only theirs changed it, disjoint fields, clashing fields |
| BranchMerge.Decide | src/merge/three_way.rs:75-111 | over all entities: the changes carry out the plan, the conflicts are the unresolved clashes, the count is that of written rows |
| BranchMerge.Merge | src/merge/three_way.rs:53-150 | refused exactly if some clash is left to manual, then with exactly those conflicts and nothing written; fails without effect exactly if a row does not fit; otherwise every row of the result is as planned |
| BranchMerge.ApplyDecided | src/merge/applier.rs:51-80 | applying the decided changes never meets an escalated one |
| BranchMerge.PreviewAll | src/merge/three_way.rs:171-191 | exactly the clashes of all entities, the number of entities without one, and two milliseconds for each of either |
| BranchMerge.Preview | src/merge/three_way.rs:153-198 | the same from the three databases |
| MergeReadings.ClashReads | src/merge/conflict.rs:33-56 | a field clashes if and only if theirs changed it in its row, ours changed it in the row of the same identifier of the last table ours changed, and the two values differ |
| MergeReadings.PreviewReads | src/merge/three_way.rs:153-198 | preview reports every clash and nothing else: the field, the row of ours, the value of ours and the value of theirs, no base value |
| MergeReadings.PreviewCounts | src/merge/three_way.rs:171-197 | the rows theirs changed without a clash, and the clashes, are counted once each |
| MergeReadings.RefusedReads | src/merge/three_way.rs:113-124 | a merge is refused if and only if some clash leads to manual; it reports exactly those clashes, with the values of each side, and writes nothing |
| MergeReadings.MergedReads | src/merge/three_way.rs:75-150 | a merge that is not refused fails exactly if a row to be written has no table in ours or a changed column is missing there; otherwise every row taken from theirs is erased with it or has the identifier, the columns theirs changed and null elsewhere, and every other row is as it was |
| MergeReadings.AppliedReads | src/merge/applier.rs:51-80 | a merge that goes through returns the number of rows only theirs changed plus that of the clashes given to theirs or the union |
| BranchMerge.RefusedIffManual | src/merge/three_way.rs:113-124 | a merge is refused if and only if a clash leads to manual; its conflicts are among preview's, and are preview's under manual |
| BranchMerge.MergeFrame | src/merge/three_way.rs:75-138 | rows theirs did not change, and rows ours changed with no field given to theirs, keep their value |
| BranchMerge.OursKeepsOurs | src/merge/three_way.rs:68-111 | under ours, every row ours changed is untouched although changes are matched by identifier alone |
| BranchMerge.SameTablesNeverFail | src/merge/applier.rs:142-182 | between branches with the same tables no write fails |
| BranchMerge.RowOfTheirsReproduced | src/merge/applier.rs:155-182 | a row the merge writes, also one given to theirs in a clash, comes out as theirs has it if and only if theirs fills no column it did not change |
| BranchMerge.AddedRowArrivesEmpty | src/diff/extractor.rs:73-80 | a merge that brings in a session added by theirs succeeds under every strategy, and the session arrives without its title |
| BranchMerge.MergeKeepsWf | src/merge/applier.rs:155-182 | every row stays complete |
| RepeatedMerge.MergeAgain | src/merge/three_way.rs:53-150 | after a merge that went through, merging again leaves the database alone if and only if the second merge stops before writing, or every row it gives to theirs that the first one left to ours is already as it would write it |
| RepeatedMerge.PlanAgain | src/merge/three_way.rs:75-111 | the second merge writes only rows that a clash gives to theirs, and writes what the first would have written |
| RepeatedMerge.MergeAgainSettles | src/merge/three_way.rs:53-150 | when no identifier is changed in two tables, merging again succeeds and changes nothing |
| RepeatedMerge.TakenSecondTime | src/merge/three_way.rs:68-111 | a first merge under theirs leaves a record to ours; the second writes it and its value is lost |
| BranchEngine.Merge | src/engine.rs:371-395 | the first unregistered of source, target and base is reported, then a missing database; otherwise it is the merge of the databases of the source's parent, or of the target where there is none, of the source and of the target; the source's database is written; merging into the parent changes nothing |
| BranchEngine.ClashIsRefused | src/engine.rs:371-395 | branches that clash in a field left to manual are not merged: the clashes are reported and nothing is written |
| BranchEngine.SiblingsRefused | src/engine.rs:371-395 | two forks of one branch that gave the title of a session different values are not merged under manual; the report has both values |
| BranchEngine.NothingIncoming | src/engine.rs:371-395 | with the target as its own base any merge succeeds and changes nothing |
| SelectiveCommit.Validate | src/commit/validator.rs:64-137 | the violations are exactly: source not live, target not active, and each requested row missing from an existing table |
| SelectiveCommit.IdsOf | src/commit/selective.rs:113-117 | the selection's list, or every identifier of the table |
| SelectiveCommit.CommitSelection | src/commit/selective.rs:119-156 | fails exactly if a row does not fit; otherwise its rows are overlaid and all others as before |
| SelectiveCommit.WriteSelections | src/commit/selective.rs:105-158 | over all selections, each row is decided by the last one that touches it, against the target before the transaction |
| SelectiveCommit.Commit | src/commit/selective.rs:84-182 | a failed validation or write changes nothing; otherwise exactly those rows, and the number of entities written |
| CommitReadings.ValidationReads | src/commit/validator.rs:64-137 | a commit fails validation if and only if the source is neither active nor dormant, the target is not active, or an identifier asked for in a table of the source has no row; the violations say which, and the target stays as it was |
| CommitReadings.FailsExactly | src/commit/selective.rs:105-158 | after a passed validation a commit fails if and only if a row asked for has no table in the target, or a column it is to get from the source is missing there |
| CommitReadings.SameTablesNeverFail | src/commit/selective.rs:220-252 | so between branches with the same tables a validated commit never fails |
| CommitReadings.RowsExactly | src/commit/selective.rs:105-158 | a row keeps its values unless a selection asks for it; then the last such selection decides it: the columns it takes are those of the source, the others those of the target before the commit, or null for a whole row |
| CommitReadings.CountOfOne | src/commit/selective.rs:110-157 | a commit of one selection returns the number of rows it listed and found, repetitions counted, or of all rows of the table |
| CommitReadings.CountAdds | src/commit/selective.rs:105-158 | over several selections these numbers add up |
| SelectiveCommit.CommitAll | src/commit/selective.rs:187-215 | the same for every entity of every table |
| SelectiveCommit.CommittedCell | src/commit/selective.rs:125-146 | field by field: what the last selection chose comes from the source, the rest from the target before the commit |
| SelectiveCommit.LastTouchIndex | src/commit/selective.rs:110-157 | the deciding selection touches the row and no later one does |
| SelectiveCommit.CommitTwice | src/commit/selective.rs:84-182 | committing the same selections again succeeds and changes nothing |
| SelectiveCommit.CommitAllThenDiff | src/commit/selective.rs:187-215 | afterwards a diff from the source counts nothing removed and nothing modified |
| SelectiveCommit.CommitKeepsWf | src/commit/selective.rs:220-252 | every row stays complete |
| Naming.Slugify | src/branch/naming.rs:35-95 | the loop computes the slug function; the result is valid and not reserved for every input |
| SlugReadings.ValidExactly | src/branch/naming.rs:7-32 | a name is valid if and only if it has 1 to 128 letters, digits, underscores, slashes, dots and dashes, no slash in front and nowhere just two dots between slashes or ends |
| SlugReadings.ScanReads | src/branch/naming.rs:39-66 | the scan keeps small letters, digits, underscores, slashes and dots, turns white space into dashes, drops a dash in front or behind a dash and a slash behind a slash, and stops at 128 |
| SlugReadings.SlugReads | src/branch/naming.rs:35-95 | the slug is what is left of that without dashes, underscores and slashes at the ends: "branch" for nothing or "..", a reserved word with "-branch" behind, dashes for slashes in a text with a ".." segment, and the text itself otherwise |
| SlugReadings.ReservedReads | src/branch/naming.rs:113-119 | text without capitals is reserved exactly if it is trunk, main, master or head |
| SlugReadings.LoweredReads | src/branch/naming.rs:39 | lower-casing goes character by character |
| SlugReadings.UniqueReads | src/branch/naming.rs:98-111 | a free slug stays; a taken one gets a dash and the decimal notation of the least number from 2 on that makes it free |
| Naming.SlugIsValid | src/branch/naming.rs:35-95 | every slug passes validation and is not reserved |
| Naming.FinishCases | src/branch/naming.rs:67-95 | a slug is the fallback, a suffixed reserved word, the trimmed scan output, or that output with dashes for slashes |
| Naming.SlugIdempotent | src/branch/naming.rs:35-95 | a second pass changes nothing if and only if the trimmed scan output settles |
| Naming.SlugifyTwice | src/branch/naming.rs:35-95 | the same for names, given that lower-casing fixes the slug alphabet |
| Naming.SlugNotIdempotent | src/branch/naming.rs:35-95 | the valid name "-../-b" has a slug that a second pass changes |
| Naming.HiddenDotDot | src/branch/naming.rs:21-95 | so has a dash followed by any clean, trimmed rest with a ".." segment and a slash next to a dash; that name is valid exactly if it is short enough and the dash hides every ".." segment |
| Naming.MakeUnique | src/branch/naming.rs:98-111 | the slug if free, else the least free suffix from 2 on, found within one try more than there are slugs |
| Naming.IndexBound | src/branch/naming.rs:103-110 | pigeonhole: as long as every candidate so far is taken the index stays within that bound |
| Naming.DecimalInjective | src/branch/naming.rs:105 | different indices give different suffixes |
| BranchLifecycle.Workspace.InsertBranch | src/branch/store.rs:47-70 | a row is inserted unless its slug is taken |
| LifecycleRuns.ForkLive | src/branch/store.rs:190-199 | counting active and dormant branches before a fork keeps the live count at the maximum at most |
| BranchLifecycle.Workspace.CreateTrunk | src/branch/lifecycle.rs:49-88 | a trunk step: directory, then row, then lineage node; refused if the trunk's slug is taken |
| BranchLifecycle.Workspace.UniqueSlug | src/branch/lifecycle.rs:110-120 | a slug no branch has, so the later duplicate-slug exits are never taken |
| BranchLifecycle.Workspace.Fork | src/branch/lifecycle.rs:91-174 | a fork step: the checks in order, then directory, row and lineage edge with the time of the fork |
| BranchLifecycle.Workspace.Link | src/branch/lifecycle.rs:170-171 | adds parent and edge to the lineage, or reports the cycle |
| BranchLifecycle.Workspace.Activate | src/branch/lifecycle.rs:177-191 | dormant becomes active, active stays untouched, anything else is refused without effect |
| BranchLifecycle.Workspace.Deactivate | src/branch/lifecycle.rs:194-207 | active becomes dormant, anything else is refused without effect |
| BranchLifecycle.Workspace.Discard | src/branch/lifecycle.rs:210-228 | a live branch is discarded now, anything else is refused without effect |
| BranchLifecycle.Workspace.Archive | src/branch/lifecycle.rs:231-242 | a live branch is archived, anything else is refused without effect |
| BranchLifecycle.Workspace.RestoreArchived | src/branch/lifecycle.rs:245-267 | an archived branch with a sound snapshot becomes active, anything else is refused without effect |
| LifecycleHistory.TransitionTable | src/branch/lifecycle.rs:177-267 | for every operation and state: the state it leads to, with the clock where one is recorded, or the error it is refused with; nothing else changes |
| LifecycleHistory.StatusFromHistory | src/branch/lifecycle.rs:177-267 | in every run the state of a branch that is not purged is that of the last operation on it that was carried out, and active if there is none |
| LifecycleHistory.DiscardTime | src/branch/lifecycle.rs:216-224 | in every run a discarded branch carries the clock of the event that discarded it while it was active or dormant |
| LifecycleHistory.Origin | src/branch/lifecycle.rs:49-174 | in every run a branch has its name, slug and parent from the trunk creation or the fork that made it |
| LifecycleHistory.ForkAccepted | src/branch/lifecycle.rs:91-108 | in every run a fork is carried out if and only if the name is valid, the parent is there and active or dormant, and fewer branches than the maximum are; otherwise the first of these that fails is reported |
| LifecycleHistory.EdgesFromForks | src/dag/graph.rs:97-106 | in every run every lineage edge comes from a fork, carries its clock and no merge cursor |
| LifecycleRuns.LiveChange | src/branch/store.rs:128-139 | a status update adds or removes exactly this branch from the live ones |
| LifecycleRuns.ChangeShape | src/branch/store.rs:128-139 | and changes no name, slug or parent, no directory and no lineage |
| BranchLifecycle.Workspace.CollectGarbage | src/snapshot/gc.rs:45-81 | purges exactly the expired branches with their directories and counts them |
| BranchLifecycle.Workspace.CollectOrphans | src/snapshot/gc.rs:84-110 | exactly the directories no registered branch owns |
| BranchLifecycle.Workspace.Lineage | src/engine.rs:512-517 | exactly the branch and its ancestors, each once, the branch last; in a forest the path from the root |
| LifecycleRuns.RunKeepsTree | src/branch/lifecycle.rs:84-171 | in every run the lineage is sound, its nodes are the registered branches, its edges exactly the parent links; slugs are distinct and only the trunk has no parent |
| LifecycleRuns.ForkNeverCycles | src/branch/lifecycle.rs:91-174 | in every run a fork fails by its own checks only, never by the lineage |
| LifecycleRuns.LineageIsParentChain | src/engine.rs:512-517 | the lineage of a branch is the one repeat-free chain of parent links from the trunk |
| LifecycleRuns.EveryBranchBelowTrunk | src/branch/lifecycle.rs:91-174 | in every run every branch has such a chain |
| LifecycleRuns.RunsAreForests | src/dag/graph.rs:202-221 | in every run the lineage is a forest, so both merge-base searches agree on it |
| LifecycleRuns.TrunkOnlyOnce | src/branch/lifecycle.rs:84-85 | in every run a trunk is accepted if and only if there is no branch yet, which is if and only if none was asked for before |
| LifecycleRuns.DiscardedStaysDead | src/branch/lifecycle.rs:177-267 | from any point on, branches keep name, slug and parent, a discarded one is never live again, a purged one never changes |
| LifecycleRuns.LiveBound | src/branch/lifecycle.rs:104-108 | in every run the live count exceeds the maximum by no more than the successful restores |
| LifecycleRuns.LimitKeptIff | src/branch/lifecycle.rs:104-108 | every world of a run is within the limit if and only if no restore succeeds with the limit already reached |
| LifecycleExamples.RestorePastLimit | src/branch/lifecycle.rs:245-267 | a run with room for two that ends with three live branches |
| LifecycleRuns.RestoreIgnoresLimit | src/branch/lifecycle.rs:245-267 | a restore adds a live branch whatever the limit |
| LifecycleRuns.GoneIffDiscarded | src/branch/lifecycle.rs:210-228 | in every run a branch is discarded or purged if and only if some event discarded it while live |
| LifecycleRuns.DiscardsExactly | src/branch/lifecycle.rs:210-228 | a live branch, the trunk as any other, becomes discarded in a step if and only if the step discards it |
| LifecycleExamples.TrunkDiscarded | src/branch/lifecycle.rs:210-228 | a run that ends with the trunk discarded |
| LifecycleRuns.DirectoriesMatch | src/snapshot/gc.rs:45-81 | in every run a directory exists exactly for each unpurged branch and for each trunk asked for after the first |
| LifecycleRuns.OrphansAreStrays | src/snapshot/gc.rs:84-110 | in every run the orphaned directories are exactly those of the trunks asked for after the first; there are none if and only if a trunk is asked for at most once |
| LifecycleExamples.SecondTrunk | src/branch/lifecycle.rs:49-88 | a run of two trunk creations that ends with the directory of the second one orphaned |
| LifecycleRuns.CollectTwice | src/snapshot/gc.rs:45-81 | a second collection at the same clock changes nothing |
| LifecycleRuns.PurgedIffCollected | src/snapshot/gc.rs:45-81 | in every run a branch is purged if and only if some collection found it discarded for longer than the threshold |
| LifecycleHistory.PurgedExactly | src/snapshot/gc.rs:45-81 | in every run a branch is purged if and only if some collection ran when the clock was past its discard by more than the threshold |
| LifecycleRuns.RunKnown | src/types.rs:45-68 | no operation makes a branch merged or orphaned |

## Left out

- SQLite, migrations, the file system, hashing and manifests: a table is a map, a transaction a working copy that
  is installed at the end, a snapshot directory an element of a set; I/O faults do not occur.
- Identifiers and clock readings are parameters; a new identifier is assumed not to occur in the registry, the
  directories or the lineage. One workspace is modelled, within one engine lifetime: the lineage is not rebuilt by
  `open`.
- Concurrency: operations are atomic steps; the count check and the insert of `fork` are not one transaction in
  the original.
- petgraph: `is_cyclic_directed` and `toposort` are implemented to their contracts; neighbour lists run from the
  newest edge to the oldest; the numbering of edges after a removal is not modelled.
- DagGraph methods after a removal that broke the index, and `subtree_of`, `leaves`, `root`, `parent_of`,
  `children_of`, `delete_node`, `update_edge_cursor`: easy members, or no caller.
- Cells: numbers, texts, booleans and null; a cell reads back as it was written. The conversion of values to text,
  column affinity, column defaults and constraints other than the identifier are not modelled.
- BranchDiff.Diff: takes no table list that names a table twice; the engine always passes the fixed list of three.
- BranchMerge.Merge: the same.
- BranchMerge.Preview: the same.
- BranchDiff.ScoreRange: uses reals where the original uses 64-bit floats.
- FieldSimilarity.NumericRange: uses reals for 64-bit floats.
- DiffReadings.ScoreReads: the same.
- DiffReadings.NumbersRead: the same.
- DiffReadings.ObjectsRead: the same.
- DiffReadings.WeightedReads: the same.
- DiffReadings.ArraysRead: the same; items are compared as values, where the original compares their texts.
- DiffReadings.OthersRead: the same; the text ratio comes from a library that is not part of this model.
- FieldSimilarity.AverageRange: the same.
- FieldSimilarity.WeightedScoreRange: the same.
- FieldSimilarity.SumPut: the same; the sum of 64-bit floats does depend on the order.
- FieldSimilarity.JaccardRange: the same; items are compared as values, where the original compares their texts.
- FieldSimilarity.SimilarityRange: uses reals for 64-bit floats; the text ratio comes from a library that is not
  part of this model, so its range, and that it is 1 exactly on equal texts, are assumptions; two array items count
  as equal when they are equal values, which is when their texts are.
- FieldSimilarity.SimilaritySymmetric: assumes that the text ratio does not depend on the side.
- SelectiveCommit.Commit: does not count updated fields and writes no commit log.
- SelectiveCommit.Validate: does not produce the warnings about missing tables, and does not say how often a
  violation is listed.
- Naming.Slugify: lower-casing and white space are parameters, as the Unicode tables are not part of this model;
  lengths count characters of the ASCII slug.
- Naming.MakeUnique: does not model the 32-bit index, which would need over four billion taken slugs to wrap; the
  result can exceed 128 characters and is not claimed to be a valid name.
- UnionAssociativity.Associativity: stated for well-formed values, that is, without repeated identities in an array.
- LineageGraph.DagGraph.FindMergeBase: the lowest answer is claimed for forests only, which is all that forks build.
- `purge_discarded`, directories whose name is no identifier, metrics, sandboxes, access guards, configuration,
  DOT export and formatting: plumbing around what is modelled here.
