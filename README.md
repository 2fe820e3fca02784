# donkeykong invalidation, modelled in Dafny

donkeykong adds cache invalidation to a luigi workflow. Given one or more
end tasks and an optional filter of task family names, it finds the tasks
the end tasks depend on ("downstream dependencies", in the project's naming).
It can then do one of two things:

- remove the persisted outputs of those tasks, skipping any output marked
  `protected`;
- report, per family, how many of those tasks are complete or incomplete.

The model covers all of the repository's own logic. That is
`donkeykong/invalidation.py` up to the row list that is handed to the table
renderer, plus the older copy `donkey_kong/invalidation.py`. The older file
is the same code as lines 1-41 of the newer one, without the statistics. It
is modelled once, and rows below cite whichever of the two files states the
property most directly.

Modules:

- `Tasks` (`tasks.dfy`): the task and output model. A `Task` carries its
  family name, its flattened output handles, whether it is a wrapper task and
  what `complete()` answers. A `Target` is an output handle: an artifact id
  and its `protected` flag.
- `Traversal` (`traversal.dfy`): `downstream_dependencies`, a pure function.
  luigi's `deps.find_deps` is the function-typed parameter `findDeps`, about
  which nothing is assumed. The family filter is `NoFilter` (Python `None`),
  `Family(name)` (a bare string) or `FamilyList(names)`.
- `Store` (`store.dfy`): the artifact store as the class `ArtifactStore`. It
  maps each artifact id to whether the artifact exists. It also keeps a ghost
  log of every `remove()` call. `invalidate` and `invalidate_downstream` are
  its methods. Each is proved equal to a left fold (`Invalidated`,
  `InvalidatedAll`) over the old state, and the properties are lemmas about
  those folds.
- `Stats` (`stats.dfy`): `invalidate_stats` up to its row list, as a method
  whose loop keeps the per-family counter dictionary and the first-seen
  family order. The result is proved equal to `StatsRows`, which is defined
  from independent tallies (`Tally`, `FirstSeen`).

The `protected` flag belongs to an output handle, not to an artifact. Two
handles can point at the same artifact, one protected and one not. The
source then removes the artifact through the unprotected handle. The
contracts therefore speak of `UnprotectedIds(outputs)`: the ids reached
through at least one unprotected handle. An artifact that is only reached
through protected handles is never touched.

Three behaviours of the code that are easy to get wrong, modelled as the code has them:

- The family filter is an ordered list, not a set. A family listed twice is
  searched twice.
- An empty list is not the same as no filter. An empty list runs no search
  and yields nothing. No filter runs one wildcard search.
- No cycle detection and no `GraphIntegrityError` exist in this code. Both
  would be behaviour of luigi's `find_deps`, which is not part of this model.

## Model

| member | source | states |
|---|---|---|
| `Tasks.UnprotectedIds` | donkeykong/invalidation.py:14 | an id is in the set iff some handle in the output collection points at it and is not protected |
| `Tasks.AllOutputs` | donkeykong/invalidation.py:40-41 | an id is reached through an unprotected handle of the concatenated outputs iff some task of the sequence reaches it through one of its own unprotected handles |
| `Store.ArtifactStore.Invalidate` | donkeykong/invalidation.py:8-15 | the new store state is the fold of the per-output step over the task's outputs, and the removal log grows by exactly the removals of that fold; an artifact exists afterwards iff it existed before and no unprotected handle of the task points at it; no artifact enters or leaves the store |
| `Store.InvalidatedState` | donkeykong/invalidation.py:12-15 | after invalidating an output collection, an artifact exists iff it existed before and is not reached through an unprotected handle, so protected outputs and other tasks' outputs keep their state and no unprotected output remains |
| `Store.RemovalsExact` | donkeykong/invalidation.py:14-15 | `remove()` is called on an id iff it existed and is reached through an unprotected handle, and never twice on the same id |
| `Store.NothingToRemove` | donkey_kong/invalidation.py:9-12 | when no unprotected output exists (including a task with no outputs, or only protected ones) invalidation makes no removal and leaves the store unchanged |
| `Store.InvalidateIdempotent` | donkey_kong/invalidation.py:11-12 | a second invalidation of the same task makes zero removals and leaves the store unchanged |
| `Store.InvalidatedAppend` | donkeykong/invalidation.py:13-15 | invalidating `a + b` is invalidating `a` and then `b`, and the removal calls concatenate in the same order |
| `Store.ArtifactStore.InvalidateDownstream` | donkeykong/invalidation.py:34-41 | the new store state is the left fold of `invalidate` over the traversal, one step per emission in emission order, and the removal log grows by that fold's removals; an empty traversal changes nothing |
| `Store.InvalidatedAllFlat` | donkey_kong/invalidation.py:37-38 | invalidating the emitted tasks one at a time equals one invalidation of all their outputs concatenated in emission order, removal calls included |
| `Store.InvalidatedAllState` | donkeykong/invalidation.py:40-41 | after `invalidate_downstream` an artifact exists iff it existed before and no emitted task reaches it through an unprotected handle |
| `Store.RepeatedEmissionsHarmless` | donkeykong/invalidation.py:29-41 | emitting tasks again that were already emitted makes no further removal and leaves the final store as it was |
| `Traversal.ConcatSearches` | donkey_kong/invalidation.py:26-28 | the composed result is as long as all the per-family search results together |
| `Traversal.DownstreamDependencies` | donkeykong/invalidation.py:18-31 | no filter gives exactly the single wildcard search `findDeps(end, None)`; a single family string gives exactly that family's search; a list gives as many tasks as its searches together; an empty list gives nothing |
| `Traversal.ConcatSearchesAppend` | donkeykong/invalidation.py:29-31 | the searches for `k1 + k2` yield the tasks for `k1` followed by those for `k2` |
| `Traversal.FamilyListInOrder` | donkeykong/invalidation.py:27-31 | the i-th family's search result appears whole and unchanged right after the results of the families before it |
| `Traversal.FamilyListAppend` | donkey_kong/invalidation.py:24-28 | filtering by `a + b` yields the tasks for `a` followed by those for `b` |
| `Traversal.DuplicatesKept` | donkey_kong/invalidation.py:26-28 | a task is yielded exactly as many times as the per-family searches together yield it; nothing is deduplicated |
| `Traversal.YieldedIffSomeSearchYields` | donkeykong/invalidation.py:29-31 | a task is yielded iff at least one of the per-family searches yields it |
| `Stats.InvalidateStats` | donkeykong/invalidation.py:44-58 | the rows are one per counted family in first-seen order, each with that family's complete and incomplete tallies; the row totals add up to the number of non-wrapper emissions; every row counts at least one task; no family has two rows |
| `Stats.CountersKeys` | donkeykong/invalidation.py:49-56 | the counter dictionary has an entry exactly for the families of the non-wrapper emissions seen so far |
| `Stats.CountersAreTallies` | donkeykong/invalidation.py:53-56 | each dictionary entry holds the numbers of complete and of incomplete non-wrapper emissions of its family |
| `Stats.RowList` | donkeykong/invalidation.py:58 | given a dictionary (its entries plus an insertion order listing every key once), the rows are as many as the keys, name every key and no other, never name a key twice, follow insertion order, and carry each key's two counters |
| `Stats.RowListIsStatsRows` | donkeykong/invalidation.py:58 | the row list built from the counter dictionary equals the table of per-family tallies in first-seen order |
| `Stats.StatsRowsProperties` | donkeykong/invalidation.py:58 | the row list counts every non-wrapper emission once in total, has no empty row and no repeated family |
| `Stats.StatsRowsTotal` | donkeykong/invalidation.py:50-58 | the sum of both counters over all rows equals the number of non-wrapper emissions |
| `Stats.FirstSeenDistinct` | donkeykong/invalidation.py:58 | the row families are pairwise distinct |
| `Stats.FirstSeenCounted` | donkeykong/invalidation.py:50-56 | a family has a row iff some non-wrapper emission belongs to it, iff its two counters add up to at least one |
| `Stats.FirstSeenPrefix` | donkeykong/invalidation.py:49-58 | the families counted within any prefix of the emissions are exactly the first rows, so the rows are in first-seen order |
| `Stats.TallyAppend` | donkeykong/invalidation.py:53-56 | counting is additive over the emission sequence |
| `Stats.FirstSeenSeenFamilies` | donkeykong/invalidation.py:49-58 | emissions whose families already have rows add no row |
| `Stats.CountedTwice` | donkeykong/invalidation.py:50-56 | when the whole emission sequence is repeated (`tasks + tasks`, which a filter listing one family twice, `[f, f]`, produces), the rows stay the same and in the same order and every counter doubles |
| `Stats.WrappersIgnored` | donkeykong/invalidation.py:51-52 | wrapper tasks contribute nothing: the rows equal those of the non-wrapper emissions alone |
| `Stats.TallyOverSearches` | donkeykong/invalidation.py:50-56 | each counter over the composed traversal is the sum of that counter over the per-family searches, so a task found by two searches is counted twice |

## Left out

- luigi's `deps.find_deps` is not part of this model. It is the parameter `findDeps`, with no assumption about cycles, deduplication within a search or where a search stops.
- luigi's `flatten` is not part of this model. A task's outputs are already a flat sequence. The family filter is `NoFilter`, one string, or a flat list of strings. Nested lists, dictionaries and `None` entries inside a filter list are not modelled.
- `tabulate` rendering (donkeykong/invalidation.py:59) is a foreign string formatter. The model stops at the row list of line 58.
- Every output is assumed to have a `protected` attribute (`Target.protected`). The source's docstring asks outputs only for `exists` and `remove`; an output without `protected` makes donkeykong/invalidation.py:14 (donkey_kong/invalidation.py:11) raise `AttributeError`, which stops the loop of `invalidate` (and of `invalidate_downstream`) and keeps the removals already made. That error path is not modelled.
- Storage backends are reduced to the map from artifact id to "exists". Exceptions raised by `exists()` or `remove()` are not modelled. In the source such an exception aborts the loop and keeps the earlier removals.
- `task.complete()` and `isinstance(task, WrapperTask)` are opaque fields of `Task`. Computing them is not modelled.
- `downstream_dependencies` is a lazy generator. It is modelled as the finite sequence it yields, computed before the first removal. This matches the source as long as `find_deps` does not depend on the outputs being removed.
- The `end_task` argument (an iterable of tasks) is a `seq<Task>` passed unchanged to `findDeps`. Nothing else reads it.
