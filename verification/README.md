# DOCA core libraries: a verified model

This project models, in Dafny, the contracts that the DOCA 2.5 headers give for four parts of the
library, as machines that can be run step by step, and proves what those contracts promise of whole
runs. The headers contain almost no bodies: what is modelled is what their comments state, and the
choices they leave open are listed at the end.

**Erasure coding** (`GaloisField`, `Gf256`, `Elimination`, `Cauchy`, `ErasureCoding`, `EcTasks`,
`EcRecoverSample`). Coding matrices are identity over Cauchy, `1/(i + j)`, in any field of
characteristic two with 256 distinct block numbers; `Gf256` builds such a field, so the hypotheses
are met by something. The create, update and recover matrices are computed, recovery by Gaussian
elimination. Tasks multiply blocks into a destination buffer in place. The main results: losing any
blocks, at most as many as there are redundancy blocks, and recovering gives the lost blocks back;
recover-matrix creation fails exactly when no decoder could exist, hence never for Cauchy matrices;
updating redundancy equals encoding again, and updates compose; the recover sample returns the file
exactly when enough blocks are left.

**Graphs** (`Digraph`, `GraphBuild`, `GraphRun`, `GraphSafety`, `GraphLiveness`, `GraphFlatten`,
`GraphOrder`, `GraphInstance`, `GraphOnEngine`). Graphs of context, user and sub-graph nodes are
built with circles refused, by edge and by containment, and unfold into finite acyclic graphs of
graphs, in which every dependency that was added is obeyed. A node is named by its path through the
nesting; a run is a sequence of submissions, overloads, successes and failures in any order the
rules allow. The main results hold for every run: each node at every depth is executed at most once
and after everything that precedes it; completion means everything ran; after a failure the instance
submits nothing more of its own, and deeper down only sub-graphs that were in flight already go on;
a failure is reported once, when all is drained; every run ends; and a graph of graphs has, failures
included, exactly the runs of its flattening, which without failures are the orders its dependencies
allow. `GraphOnEngine` puts an instance on the progress engine: its context nodes are tasks there,
and whatever the application does to the contexts meanwhile, the instance ends with exactly one
callback.

**Progress engine and contexts** (`Context`, `EngineRun`, `Engine`). Contexts move between idle,
starting, running and stopping; tasks are owned by the user or by DOCA. Callbacks may resubmit, free
or keep their task. The main results: state-changed callbacks trace the documented diagram; every
submission gets one callback; the counters agree; stopping drains in exactly as many callbacks as
tasks were in flight, whatever the callbacks try.

**Buffers** (`BufLists`, `Buffers`, `BufPool`). Descriptors are objects with `next` pointers,
reference counts and data windows, taken from inventories, pointing into memory maps. Chaining and
unchaining are proved to join and split a partition into lists; a list that mixes inventories and
memory maps is released element by element with every count kept. A pool gives each of its buffers
an aligned place of its own in one range, and starts exactly when some placement of that many
elements exists; its buffers are buffers of the same heap.

`Outcome` holds the error codes and `Sequences` two shared notions. Each class carries a `Valid()`
invariant; for graph instances and the engine it says that the object's state is the outcome of a
run, so the results about runs apply to the objects as they are. For the library of graphs it is an
invariant of the table of graphs.

## Model

| member | source | states |
|---|---|---|
| Gf256.BytesAreAField | include/doca_erasure_coding.h:1066-1076 | the laws assumed of the engine's byte arithmetic can be met: a concrete field of characteristic two has 256 distinct block numbers |
| Elimination.ExpressSound | include/doca_erasure_coding.h:1180-1206 | coefficients found by elimination reproduce the target row on every data column |
| Elimination.ExpressComplete | include/doca_erasure_coding.h:1180-1206 | when elimination finds none, some data is invisible to all decode rows but not to the target |
| Cauchy.TrivialKernel | include/doca_erasure_coding.h:1070-1072 | any square sub-matrix of the 1/(i + j) part is invertible: only zero is mapped to zero |
| ErasureCoding.CreatedMatrix | include/doca_erasure_coding.h:1066-1124 | the created matrix is the identity over 1/(i + j): every coefficient of a redundancy block times the sum of the two block numbers is one |
| ErasureCoding.BlockRowMeaning | include/doca_erasure_coding.h:1066-1124 | block b of the data followed by the redundancy is, byte by byte, row b of the matrix times the data |
| ErasureCoding.MatrixCreateRecover | include/doca_erasure_coding.h:1180-1206 | only ascending, valid indices give a recover matrix, of one row for each missing block |
| ErasureCoding.RecoverReturnsTheLostBlocks | include/doca_erasure_coding.h:810-855 | whatever the coding matrix, a recover matrix turns the available blocks into exactly the missing ones |
| ErasureCoding.RecoverFailsOnlyWhenHopeless | include/doca_erasure_coding.h:1180-1206 | on valid indices creation succeeds if and only if the available blocks determine the missing ones |
| ErasureCoding.CauchyRecoveryNeverFails | include/doca_erasure_coding.h:1069-1075 | for the Cauchy code any k surviving blocks do, whichever are missing |
| ErasureCoding.EnoughSurvivors | include/doca_erasure_coding.h:817-821 | after losing at most r of k + r blocks there are k ascending survivors to recover from |
| ErasureCoding.CreateLoseRecover | include/doca_erasure_coding.h:1064-1206 | create, lose blocks, create the recover matrix for any k that are left, recover: the lost blocks come back, for every size and content |
| ErasureCoding.MatrixCreateUpdate | include/doca_erasure_coding.h:1153-1179 | creation succeeds exactly for ascending indices of data blocks; the matrix fits the update task's block layout |
| ErasureCoding.UpdateLayout | include/doca_erasure_coding.h:584-590 | the update source holds old and new content of each updated block in turn, and then the old redundancy |
| ErasureCoding.UpdateEqualsReencode | include/doca_erasure_coding.h:576-619 | updating from old and new blocks and old redundancy equals encoding the new data from scratch |
| ErasureCoding.UpdatesCompose | include/doca_erasure_coding.h:576-619 | redundancy encoded once and then carried through any history of updates, each made from the one before, is that of the latest data |
| EcTasks.SplitAt | include/doca_erasure_coding.h:817-821 | a flat buffer holds block j from j * size on |
| EcTasks.OffsetIsProduct | include/doca_erasure_coding.h:831-838 | block i starts i block sizes into its buffer |
| EcTasks.Task.AllocateInit | include/doca_erasure_coding.h:597-612 | a task is made exactly when the buffers are whole multiples of an accepted block size and large enough |
| EcTasks.Task.Byte | include/doca_erasure_coding.h:810-855 | each output byte is that of the matrix product |
| EcTasks.Task.WriteBlock | include/doca_erasure_coding.h:822-825 | one product block is written in place; every other byte of the destination stays |
| EcTasks.Task.Execute | include/doca_erasure_coding.h:810-855 | the destination ends up holding the product blocks in order, and nothing behind them changes |
| EcRecoverSample.Collect | samples/doca_erasure_coding/erasure_coding_recover/erasure_coding_recover_sample.c:688-716 | k blocks are gathered if that many files are readable and all of those otherwise, and every lost data block met is noted, in ascending order |
| EcRecoverSample.Concatenate | samples/doca_erasure_coding/erasure_coding_recover/erasure_coding_recover_sample.c:704-711 | blocks laid end to end are found again by splitting |
| EcRecoverSample.RunTask | samples/doca_erasure_coding/erasure_coding_recover/erasure_coding_recover_sample.c:767-777 | running a task through flat buffers multiplies the blocks by its matrix |
| EcRecoverSample.Decode | samples/doca_erasure_coding/erasure_coding_recover/erasure_coding_recover_sample.c:688-801 | decoding succeeds if and only if at least k of the files are readable and one of the first k is lost, and then returns the data |
| Digraph.NewEdgeCircle | include/doca_graph.h:324-348 | a new edge closes a circle exactly when its source can be reached from its target |
| Digraph.MinimalExists | include/doca_graph.h:21-22 | in an acyclic graph every set of nodes has one that depends on no other of them |
| Digraph.Explore | include/doca_graph.h:324-348 | the search finds exactly the nodes that can be reached |
| GraphBuild.GraphLibrary.Create | include/doca_graph.h:127-146 | a new graph is empty and stopped |
| GraphBuild.GraphLibrary.SetConf | include/doca_graph.h:165-186 | the number of instances can be set unless the graph is started |
| GraphBuild.GraphLibrary.NodeFromCtx | include/doca_graph.h:223-245 | a context node is added as a root unless the graph is started |
| GraphBuild.GraphLibrary.NodeFromUser | include/doca_graph.h:262-289 | a user node is added as a root unless the graph is started |
| GraphBuild.GraphLibrary.NodeFromGraph | include/doca_graph.h:290-322 | a sub-graph node is refused as forming a circle exactly when the graphs would otherwise contain themselves |
| GraphBuild.GraphLibrary.AddDependency | include/doca_graph.h:324-348 | a dependency is refused as forming a circle exactly when the dependencies would stop being acyclic; all graphs stay acyclic |
| GraphBuild.GraphLibrary.Start | include/doca_graph.h:350-370 | starting needs a context node and running contexts; a started graph stays started |
| GraphBuild.GraphLibrary.Stop | include/doca_graph.h:372-387 | stopping is refused exactly while instances exist |
| GraphBuild.GraphLibrary.InstanceCreate | include/doca_graph.h:389-409 | an instance needs a started graph and a free place among the configured number; its nodes and dependencies are those the graph was built with |
| GraphBuild.UsesMeans | include/doca_graph.h:290-322 | a graph uses another exactly when one of its nodes runs it |
| GraphBuild.NestedAsBuilt | include/doca_graph.h:389-409 | at every path of an instance run the nodes and the dependencies that the table holds for the graph reached there |
| GraphBuild.TableOrder | include/doca_graph.h:324-348 | a dependency in any graph of the table is obeyed wherever that graph runs, at any depth |
| GraphBuild.DependAndCreate | include/doca_graph.h:64-103 | adding a dependency, starting and creating an instance: in each of its runs `to` is submitted only after `from` has succeeded |
| GraphBuild.GraphLibrary.InstanceDestroy | include/doca_graph.h:411-427 | an instance that is submitted, or is node data, cannot be destroyed |
| GraphBuild.CircleThroughAStoppedGraph | include/doca_graph.h:295-316 | the circle check is needed beside the state rules: a graph stopped after it was nested can be refused only by it |
| GraphBuild.UnfoldsWellFormed | include/doca_graph.h:22-32 | whatever is built, in any order of calls, unfolds into a finite graph of graphs that is acyclic at every depth |
| GraphRun.MaySubmitExactlyWhen | include/doca_graph.h:548-553 | a node may be submitted exactly when it waits, its graph is in flight with no failed node, and all nodes it depends on are done |
| GraphRun.MayCompleteExactlyWhen | include/doca_graph.h:22-32 | a graph in flight may complete exactly when all its nodes have |
| GraphRun.MayFailExactlyWhen | include/doca_graph.h:43-44 | a graph in flight may fail exactly when a node of it has failed and none is in flight |
| GraphRun.LeafMayEnd | include/doca_graph.h:25-28 | a context or user node in flight may complete or fail at any time |
| GraphSafety.RunInv | include/doca_graph.h:34-45 | every reachable state keeps the order between nodes, instances and failures |
| GraphSafety.Accounting | include/doca_graph.h:548-566 | a node's status is the exact record of its submissions and completions |
| GraphSafety.StatusIsTheRecord | include/doca_graph.h:548-566 | a node is pending, done or failed exactly as its submissions and endings in the run so far say |
| GraphSafety.ExecutedAtMostOnce | include/doca_graph.h:548-566 | a node is submitted at most once, and ends at most once, well or badly, only if submitted; an instance gets at most one callback |
| GraphSafety.PredecessorsCompleteFirst | include/doca_graph.h:290-348 | before a node is submitted everything that precedes it at any depth has completed successfully |
| GraphSafety.DependenciesFirst | include/doca_graph.h:324-348 | when a graph at any depth makes node i depend on node j, whatever is in i is submitted only after everything in j has succeeded |
| GraphSafety.PrecedesInAGraph | include/doca_graph.h:22-32 | what precedes is reachability in one of the graphs, between the nodes the two lie in |
| GraphSafety.InAGraphPrecedes | include/doca_graph.h:22-32 | and the converse: any such reachability is precedence |
| GraphSafety.CompletionMeansEverythingRan | include/doca_graph.h:165-174 | the completion callback comes only after every node at every depth ran exactly once and none failed |
| GraphSafety.NothingAfterTheCallback | include/doca_graph.h:43-44 | after the callback of either kind no further event is possible |
| GraphSafety.NoSubmissionAfterFailure | include/doca_graph.h:43-44 | once a node has failed no other node directly in its instance is submitted |
| GraphSafety.SubmissionsAfterFailure | include/doca_graph.h:43-44 | after a failure, whatever is still submitted anywhere inside the instance lies in another sub-graph that was in flight already |
| GraphLiveness.SubGraphGoesOn | include/doca_graph.h:43-44 | such submissions do happen: a concrete run submits inside a sub-graph in flight after the node beside it failed |
| GraphSafety.FailureReportedAfterDraining | include/doca_graph.h:43-44 | failure is reported after a node failed and only when nothing inside is in flight |
| GraphSafety.FailureHasACause | include/doca_graph.h:43-44 | a failed instance contains a failed context or user node |
| GraphLiveness.StartState | include/doca_graph.h:548-566 | an instance waiting for submission has all its nodes pending |
| GraphLiveness.StepsAreBounded | include/doca_graph.h:95-97 | steps other than overload retries and the open work always add up to twice the number of nodes |
| GraphLiveness.TwoStepsPerNode | include/doca_graph.h:95-97 | a run takes at most two steps per node, not counting overloads |
| GraphLiveness.NoDeadlock | include/doca_graph.h:34-45 | a submitted instance always has a next step other than an overload retry |
| GraphLiveness.StuckOnlyWhenFinished | include/doca_graph.h:95-97 | a run that can only be retried has had exactly one callback |
| GraphLiveness.CompletesIffNoNodeFails | include/doca_graph.h:43-45 | an instance completes if and only if no context or user node failed; overload never makes it fail |
| GraphFlatten.PrecedesTransitive | include/doca_graph.h:22-32 | the order of the flattening is transitive across depths |
| GraphFlatten.PrecedesIrreflexive | include/doca_graph.h:22-32 | the flattening is acyclic |
| GraphFlatten.RunsFlatten | include/doca_graph.h:290-322 | every run of a graph of graphs is, on its context and user nodes, a run of the flattening with its failure rule |
| GraphFlatten.FlatRunsAreNested | include/doca_graph.h:290-322 | every run of the flattening, failures included, is a run of the graph of graphs |
| GraphFlatten.OrderAloneWithoutFailures | include/doca_graph.h:22-32 | as long as nothing has failed the flattening is its order alone: a leaf may be submitted exactly when all that precede it are done |
| GraphOrder.ObservableOrders | include/doca_graph.h:22-48 | without failures, the orders in which context and user nodes are seen to be submitted and to complete are exactly those that respect the dependencies at every depth |
| GraphOrder.LeafEventsAre | include/doca_graph.h:22-32 | the events kept are those of context and user nodes |
| GraphInstance.Instance.Submit | include/doca_graph.h:548-566 | a submitted instance cannot be submitted again; any other starts a fresh run |
| GraphInstance.Instance.ProgressToCallback | include/doca_graph.h:95-103 | progressing ends in the callback in whatever order events come, and completes exactly when none of its nodes is faulty |
| GraphInstance.Verdict | include/doca_graph.h:43-45 | the faulty nodes alone decide how an instance ends |
| GraphOnEngine.RunSound | include/doca_graph.h:466-478 | whatever the application does to the engine, the context nodes in flight are exactly those whose tasks DOCA owns |
| GraphOnEngine.IdleContextsRunNoNode | include/doca_ctx.h:74-102 | an idle or starting context runs no node of an instance |
| GraphOnEngine.GraphPart | include/doca_graph.h:548-566 | an instance on the engine makes a run of its graph, so the results on graph runs hold for it |
| GraphOnEngine.EnginePart | include/doca_pe.h:208-224 | meanwhile the engine makes steps of its own kind, those of the nodes' tasks and all others |
| GraphOnEngine.NodesAndTasksAgree | include/doca_graph.h:466-478 | over every run a context node is submitted, completes and fails as often as its task does, but for refusals |
| GraphOnEngine.NoDeadlock | include/doca_graph.h:34-45 | while an instance is in flight some move advances it, in whatever state the contexts are |
| GraphOnEngine.AdvancesAreBounded | include/doca_graph.h:95-97 | an instance advances at most twice as often as it has nodes, however much else goes on |
| GraphOnEngine.OneCallback | include/doca_graph.h:165-174 | an instance that cannot advance any more has had exactly one callback, also when contexts were stopped under it |
| GraphOnEngine.StoppedContextFailsTheInstance | include/doca_ctx.h:95-102 | an instance with a node waiting for a context that ceased to run does not complete before the context runs again |
| Context.CountZero | include/doca_ctx.h:174-190 | a count of zero means that DOCA owns no task |
| Context.CountIs | include/doca_ctx.h:174-190 | the count is the number of tasks DOCA owns |
| EngineRun.RunInv | include/doca_pe.h:208-224 | in every reachable state the engine's count is the sum of its contexts' counts, which count the tasks DOCA owns; only running and stopping contexts have any |
| EngineRun.CountersAreExact | include/doca_pe.h:208-224 | over every run the engine's and each context's counts are the numbers of tasks DOCA owns, in all contexts and in that one |
| EngineRun.CompletionsCounted | include/doca_pe.h:208-224 | no completing task is missing from either counter |
| EngineRun.Accounting | include/doca_pe.h:34-48 | each submission is answered by exactly one callback and each allocation by at most one release, over every run |
| EngineRun.OwnersAreTheBalance | include/doca_pe.h:34-48 | a slot is DOCA's exactly while a submission is unanswered, and free exactly when all its allocations have been released |
| EngineRun.TraceFollowsTheDiagram | include/doca_ctx.h:46-120 | state-changed callbacks of each context trace a connected path of the diagram to its present state |
| EngineRun.ArrowsOfEvents | include/doca_ctx.h:46-120 | which call or occurrence moves a context along which arrow, and that nothing else does |
| EngineRun.DrainsByTheNumber | include/doca_ctx.h:95-102 | a stopping context gets exactly as many callbacks as it had tasks in flight, and nothing is allocated or submitted meanwhile |
| EngineRun.CallbacksAre | include/doca_ctx.h:95-102 | the callbacks counted are the completions and errors of the context's tasks |
| EngineRun.StoppingIsNeverStuck | include/doca_ctx.h:95-102 | a stopping context always has a callback due or can become idle |
| EngineRun.IdleMeansAnswered | include/doca_ctx.h:95-102 | an idle context has had every submission answered |
| Engine.ProgressEngine.Connect | include/doca_pe.h:336-353 | only an idle, unconnected context can be connected |
| Engine.ProgressEngine.Configure | include/doca_dma.h:193-215 | sets how many tasks an idle context can allocate, once all it had are freed |
| Engine.ProgressEngine.Start | include/doca_ctx.h:122-150 | starting needs a connection and runs at once or later, as the result says |
| Engine.ProgressEngine.Stop | include/doca_ctx.h:152-172 | success means idle with nothing in flight; in progress means stopping with something in flight |
| Engine.ProgressEngine.AllocInit | include/doca_dma.h:217-240 | allocation hands out a free task and is refused exactly when there is none |
| Engine.ProgressEngine.TaskSubmit | include/doca_pe.h:226-243 | a task is DOCA's exactly when its submission succeeded, and the user's otherwise |
| Engine.ProgressEngine.TaskTrySubmit | include/doca_pe.h:245-264 | an invalid task is not submitted and stays with the user |
| Engine.ProgressEngine.TaskFree | include/doca_pe.h:266-278 | a task the user owns becomes free again |
| Engine.Delivered | include/doca_pe.h:34-48 | a callback in a stopping context leaves one task less in flight, whatever it does with the task |
| Engine.ProgressEngine.Deliver | include/doca_pe.h:34-48 | the callback returns the task to the user; resubmitted in a running context it is DOCA's again and counted, freed it is free, otherwise it is the user's; nothing else changes |
| Engine.ProgressEngine.Progress | include/doca_pe.h:96-112 | progress is reported exactly when there was something to do, and it is a callback, a connection or a context becoming idle |
| Engine.ProgressEngine.PollForStop | samples/doca_common/pe_async_stop/pe_async_stop_sample.c:239-251 | polling a stopping context ends in idle whatever its callbacks try, and every task in flight goes back to the user or is freed |
| BufLists.JoinKeepsPartition | include/doca_buf.h:340-372 | chaining keeps the lists disjoint and free of repetition |
| BufLists.SplitKeepsPartition | include/doca_buf.h:374-407 | so does unchaining |
| BufLists.SplitAfterJoin | include/doca_buf.h:374-407 | unchaining what was chained restores both lists and every other |
| BufLists.JoinAfterSplit | include/doca_buf.h:340-407 | chaining what was unchained restores the list |
| BufLists.SplitMeans | include/doca_buf.h:374-407 | splitting cuts the one list in two, the second of which starts with the element given |
| Buffers.Heap.LiveBuffersArePartitioned | include/doca_buf.h:245-338 | every allocated buffer, and no other, is in exactly one list, at one place |
| Buffers.Heap.PointersSpellTheLists | include/doca_buf.h:245-338 | the next pointers and flags of the buffers are those of the lists, and only heads are shared |
| Buffers.Heap.ReferenceCounts | include/doca_buf.h:49-67 | counts stay within 16 bits, and only heads have one other than one |
| Buffers.Heap.InventoryConserved | include/doca_buf_inventory.h:261-297 | an inventory's total is its free elements plus the allocated buffers taken from it |
| Buffers.Heap.MmapConserved | include/doca_mmap.h:480-494 | a memory map's count is the number of allocated buffers pointing into it |
| Buffers.Heap.WindowsAreContained | include/doca_buf.h:105-128 | head <= data <= data + data length <= head + length, inside a started memory range that does not wrap around |
| Buffers.Heap.GetNextInList | include/doca_buf.h:245-258 | the next element of the list, or none at the end |
| Buffers.Heap.GetLastInList | include/doca_buf.h:260-275 | the last element of the list |
| Buffers.Heap.IsLastInList | include/doca_buf.h:277-290 | whether the buffer is the last of its list |
| Buffers.Heap.IsFirstInList | include/doca_buf.h:292-305 | whether the buffer is the first of its list |
| Buffers.Heap.IsInList | include/doca_buf.h:307-320 | whether the buffer shares its list with another |
| Buffers.Heap.GetListLen | include/doca_buf.h:322-338 | the length of the list, from its head only |
| Buffers.Heap.IncRefcount | include/doca_buf.h:49-67 | one more reference to a head, up to the 16-bit maximum; inner elements are refused and unchanged |
| Buffers.Heap.DecRefcount | include/doca_buf.h:69-89 | one reference less; when a head reaches zero exactly the elements of its list are released and all others stay |
| Buffers.Heap.SetData | include/doca_buf.h:186-214 | moves the data window inside the buffer |
| Buffers.Heap.ResetDataLen | include/doca_buf.h:216-243 | empties the data window where it is |
| Buffers.Heap.ChainList | include/doca_buf.h:340-372 | appends one list to the other in place unless the appended one is shared; all counts and windows stay |
| Buffers.Heap.UnchainList | include/doca_buf.h:374-407 | splits a list in place before list2, exactly when list2 comes after list1 in it; list2 has a count of one |
| Buffers.Heap.LaterMeans | include/doca_buf.h:374-407 | one buffer comes after another when both are in a list, at places in that order |
| Buffers.Heap.ChainThenUnchain | include/doca_buf.h:340-407 | on the pointers themselves, unchaining after chaining restores every list and every count |
| Buffers.Heap.GetByArgs | include/doca_buf_inventory.h:135-164 | allocates a free element over a window of the memory range, or says why not and changes nothing |
| Buffers.Heap.GetByAddr | include/doca_buf_inventory.h:166-190 | a buffer over the given range with empty data at its start |
| Buffers.Heap.GetByData | include/doca_buf_inventory.h:192-217 | a buffer that is all data |
| Buffers.Heap.Dup | include/doca_buf_inventory.h:219-238 | a copy in another descriptor, a list of its own; only heads can be copied |
| Buffers.Heap.MmapCreate | include/doca_mmap.h:70-88 | a memory map starts without range, stopped and unused |
| Buffers.Heap.MmapSetMemrange | include/doca_mmap.h:349-372 | the range is set once, while stopped, and must not overflow |
| Buffers.Heap.MmapStart | include/doca_mmap.h:109-136 | starting needs the range |
| Buffers.Heap.MmapStop | include/doca_mmap.h:138-157 | stopping is refused exactly while an allocated buffer points into the map |
| Buffers.Heap.MmapDestroy | include/doca_mmap.h:90-107 | so is destroying |
| Buffers.Heap.InventoryCreate | include/doca_buf_inventory.h:50-69 | a new inventory holds its number of free elements |
| Buffers.Heap.InventoryStart | include/doca_buf_inventory.h:89-111 | enables retrieval |
| Buffers.Heap.InventoryStop | include/doca_buf_inventory.h:113-129 | disables retrieval |
| Buffers.Heap.InventoryDestroy | include/doca_buf_inventory.h:71-87 | refused exactly while one of its elements is allocated |
| BufPool.MultipleMeans | include/doca_buf_pool.h:183-198 | aligned means without remainder |
| BufPool.PowerOfTwoMeans | include/doca_buf_pool.h:183-198 | powers of two are the numbers with no odd divisor but one |
| BufPool.LayoutIsSound | include/doca_buf_pool.h:19-42 | the places of the layout are aligned, pairwise disjoint and inside the room the layout takes |
| BufPool.LayoutIsTight | include/doca_buf_pool.h:121-124 | no aligned placement of as many elements needs less room |
| BufPool.FitsExactlyWhenPossible | include/doca_buf_pool.h:121-124 | the layout fits if and only if some aligned placement of that many elements does |
| BufPool.CreatePool | include/doca_buf_pool.h:61-82 | a pool needs elements, a size and a memory map with a range; it has as many free descriptors |
| BufPool.Pool.Conserved | include/doca_buf_pool.h:200-230 | the total is the free plus the allocated elements |
| BufPool.Pool.AllocatedApart | include/doca_buf_pool.h:19-42 | two allocated buffers never overlap, and lie inside the range at multiples of the alignment |
| BufPool.Pool.SetElementAlignment | include/doca_buf_pool.h:183-198 | the alignment is a power of two and cannot change while started, so allocated buffers keep their places |
| BufPool.Pool.StartPool | include/doca_buf_pool.h:103-127 | starting needs a started memory map, and fails for lack of room exactly when no placement exists |
| BufPool.Pool.StopPool | include/doca_buf_pool.h:129-147 | stopping is refused exactly while a buffer is allocated |
| BufPool.Pool.BufAlloc | include/doca_buf_pool.h:149-164 | hands out a free buffer, empty and at its own place; the pool is empty only when all are allocated |
| BufPool.Pool.Release | include/doca_buf.h:69-89 | dropping the last reference to a list returns its buffers to the pool; all others keep their places |

## Left out

Points the headers leave open or contradict, and what the model does:

- GraphBuild.GraphLibrary.Start: starting a started graph is called both a success (include/doca_graph.h:362) and a bad state (include/doca_graph.h:365-366); the model returns success. Contexts that do not run give a bad state, a code the header does not name.
- GraphBuild.GraphLibrary.NodeFromGraph: nodes are numbered per graph and graphs by handles; one sub-graph instance shared by several nodes or instances is not modelled, each sub-graph node runs an instance of its own.
- GraphBuild.GraphLibrary.InstanceDestroy: whether the instance is set as node data of another one is a parameter; the setters of node data are not modelled.
- GraphSafety.SubmissionsAfterFailure: the header does not say whether a failing node also stops sub-graph instances that are in flight beside it; since a submitted graph cannot be aborted (include/doca_graph.h:553), they go on, and the enclosing instance waits for them.
- GraphOnEngine.RunSound: a context node whose context does not run when its turn comes is taken to fail, since its task cannot be submitted; the header says only that error statuses of root tasks may come up when the instance is submitted (include/doca_graph.h:563).
- GraphInstance.Instance.ProgressToCallback: the number of overloads is bounded by a parameter, which stands for the fairness of contexts becoming free.
- ErasureCoding.MatrixCreateRecover: the call is given only the missing indices; which survivors feed the recovery is not fixed (include/doca_erasure_coding.h:818-821), so the model takes any choice as an argument and the results hold for all of them. Missing indices may also name redundancy blocks, as the recover sample passes them.
- ErasureCoding.CreatedMatrix: the limit of 256 blocks follows from block numbers being bytes; only the Cauchy type is modelled. The field polynomial is not given, so results hold for every field with the stated laws.
- EcTasks.Task.AllocateInit: the 64-byte rule is reported as an invalid value; the task takes arrays, not buffer descriptors, and does not count towards a context's tasks.
- EcRecoverSample.Decode: the block size is given and equal for all files; file names, paths and writing the output are not modelled.
- Engine.Delivered: that a failed task may stop its context is not in the headers but in the samples, which say so of DMA (samples/doca_dma/dma_common.c:316-321); it is a property of each context.
- Engine.ProgressEngine.Configure: the header names no error for a context that is not idle or has tasks left; the model returns a bad state. All tasks must be freed before (include/doca_pe.h:272).
- Engine.ProgressEngine.TaskTrySubmit: whether a task is valid depends on its kind and is a parameter.
- Engine.ProgressEngine.Start: starting a context that is not idle is not described; the model returns a bad state.
- Engine.ProgressEngine.Stop: becoming idle depends on tasks in flight only, as include/doca_ctx.h:95-102 and include/doca_ctx.h:165-166 say; that all tasks must also have been freed (include/doca_pe.h:272) is left to the user, and needed before configuring again. Stopping an idle context is a success.
- Engine.ProgressEngine.PollForStop: other contexts of the engine are served a bounded number of times, which stands for fair progress; partial completions and events are not modelled.
- Engine.ProgressEngine.AllocInit: allocating in a context that does not run gives a bad state, a code the header does not name.
- Buffers.Heap.GetByArgs: an inventory or memory map that is not started is a caller's fault (include/doca_buf_inventory.h:140-142); the model returns a bad state.
- Buffers.Heap.Dup: the header does not say whether copying the head of a longer list copies the list; the model copies the one element.
- Buffers.Heap.ChainList: the two lists are required to be different, since a list chained to itself would have no end.
- Buffers.Heap.MmapStop: exported memory maps, which stopping is said both to invalidate and to refuse (include/doca_mmap.h:143, include/doca_mmap.h:153), are not modelled.
- Buffers.Heap.MmapStart: a missing range is reported as an invalid value; devices are not modelled.
- BufPool.Pool.StartPool: the required size is not given (include/doca_buf_pool.h:122-123); the model packs elements at the alignment and proves that no less would do.
- BufPool.Pool.BufAlloc: a memory map stopped after the pool was started is reported as a bad state. Pool buffers count towards their memory map while allocated. Destroying a pool, refused as stopping is, is not modelled.

Parts of the library outside the model:

- Devices, representors, capability queries, and the hardware engines for flow steering, compression, encryption and RDMA: they configure or query hardware.
- Export of memory maps, foreign memory, notification handles, communication channels and connection handshakes: their semantics are not shown.
- Vandermonde matrices and matrices from raw bytes: the first are not always invertible, the second has no stated layout; results about recovery with any coding matrix cover what can be said.
- Galois multiplication tasks: the same product as the create task.
- User data, logging, getters and setters of single fields.
