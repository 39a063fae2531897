# Critical-path scheduler, modelled in Dafny

The scheduler `zad2-v4.py` reads tasks (single-character identifiers with durations) and
directed precedence edges between them. It then:

1. rejects an edge list that contains a cycle (`is_acyclic`, Kahn's reduction);
2. builds an undirected adjacency view sorted by identifier (`get_adj_list`);
3. computes earliest start times in one ascending pass, treating a neighbour as a
   predecessor exactly when its identifier is smaller (`get_ordering`);
4. walks a greedy "critical path" from the first to the last task of the duration map,
   always moving to the longest later neighbour (`get_next_node`, `get_critical_path`);
5. reports the start and finish of every task and a total duration (`print_result`).

The model follows the code step by step:

- Each Python function is a method with the same loops.
- A Python dict, whose iteration order matters here, is a `Dict`: a key sequence in
  insertion order plus a map.
- Identifiers are `char`, so Python's `ord(a) < ord(b)` is `a < b`.
- Each method is proved against a specification predicate or function, and lemmas state
  what those specifications promise.

Modules:

- `dicts.dfy` (`Dicts`): identifiers, `Dict`, `Option` and `Result`, and shared sequence
  facts.
- `graph.dfy` (`Graph`): edge lists, successor lists, in-degrees, and what a cycle is. A
  cycle is a closed walk of at least one edge, so a self-loop counts.
- `acyclicity.dfy` (`Acyclicity`): `is_acyclic`.
  - It includes the defaultdict behaviour. Reading `graph[u]` for a dequeued sink inserts
    `u` as a key.
  - The main result is that the verdict is `true` exactly when the edge list has no cycle.
  - The proof ranks nodes in enqueue order. When the queue runs dry, the nodes that still
    have a positive in-degree each have a predecessor among themselves, so walking
    backwards through them must repeat a node.
- `adjacency.dfy` (`Adjacency`): `get_adj_list`, including the sort. It models `sorted()`
  as an insertion sort.
- `schedule.dfy` (`Schedule`): `get_ordering`, `extend_nodes` and the total computed in
  `print_result`.
- `critical_path.dfy` (`CriticalPath`): `get_next_node`, `get_critical_path`,
  `get_durations`, and the offsets of the Gantt chart bars.

Some behaviours of the code shape the model:

- **What the walk compares.** `main` passes the duration map to `get_critical_path`
  (line 199). So the walk compares durations, `nodes[next]` (line 84), and never earliest
  starts. It starts at the first key of the duration map and stops at its last key, in
  insertion order (lines 92-93).
- **Dead ends.** When no later neighbour has a positive duration, `get_next_node` returns
  `None`. The loop appends it, and the next call fails looking `None` up in `adj_list`
  (line 82). The model reports this as `DeadEnd`.
- **Missing durations.** `extend_nodes` gives every task a duration, with 0 as the
  default, but nothing calls it. So `nodes[n]` at line 72 and `nodes[next]` at line 84
  raise `KeyError` for a neighbour without a duration. `get_critical_path` only inspects
  the neighbours of the tasks it walks through. The model reports that failure as
  `MissingDuration`, with the walk so far.
- **A single task.** `get_critical_path` always takes at least one step, because
  `next_node` starts as `None` (line 98). A duration map with one key therefore never
  succeeds.

## Model

| member | source | states |
|---|---|---|
| Acyclicity.IsAcyclic | zad2-v4.py:19-46 | the verdict is true exactly when the directed edge list contains no cycle (a self-loop is a cycle) |
| Acyclicity.BuildGraph | zad2-v4.py:20-27 | the successor map has exactly the edge sources as keys. Its key order is the order in which sources first appear in the edge list, each once. Each list is the node's successors in edge order, and each in-degree counts the edges into the node |
| Acyclicity.AddEdge | zad2-v4.py:25-27 | one edge appends its source to the key order when new, appends its target to the source's list, and adds one to the target's in-degree; the key order, lists and in-degrees then describe one more edge |
| Graph.FirstSourcesShape | zad2-v4.py:20-27 | the first-seen order of the sources has no repetitions, holds exactly the sources, and is no longer than the edge list |
| Acyclicity.SeedQueue | zad2-v4.py:30 | the queue is the keys of in-degree 0, in key order. So it holds exactly the source keys with no incoming edge, and the drain invariant holds with nothing dequeued |
| Acyclicity.ZeroKeysShape | zad2-v4.py:30 | a task is in the filtered list exactly when it is a key with in-degree 0, and the list has no repetitions when the keys have none |
| Acyclicity.Drain | zad2-v4.py:33-38 | the loop keeps its invariant and ends. Each remaining in-degree counts the edges from nodes not yet dequeued, and never goes below 0. A node is queued exactly when its in-degree is 0, so at most once. There are at most as many dequeues as distinct nodes |
| Acyclicity.RemoveOutEdges | zad2-v4.py:35-38 | after a node's out-edges are removed, each in-degree counts the edges from outside the dequeued nodes and is not negative. Exactly the nodes that reach 0 are queued, with increasing ranks. The old queue is kept as a prefix, and everything appended after it is a successor of the node |
| Acyclicity.Advance | zad2-v4.py:36-38 | one successor's decrement keeps the loop invariant. The old queue is kept as a prefix, and at most that successor is appended |
| Acyclicity.Visit | zad2-v4.py:36-38 | one decrement: the successor's in-degree drops by one and nothing else changes. It is appended to the end of the queue, with the next rank, exactly when that makes its in-degree 0 |
| Acyclicity.FindPositive | zad2-v4.py:42-44 | finds a key with positive in-degree when there is one, and otherwise every key's in-degree is at most 0 |
| Acyclicity.DrainedPositiveHasCycle | zad2-v4.py:40-44 | after the drain, a node with positive in-degree implies a cycle |
| Acyclicity.DrainedZeroIsAcyclic | zad2-v4.py:40-46 | after the drain, if no key has a positive in-degree then every node of the edge list was dequeued and there is no cycle |
| Acyclicity.TriangleHasCycle | zad2-v4.py:19-46 | A->B->C->A contains a cycle, so the verdict for it is false |
| Acyclicity.SelfLoopHasCycle | zad2-v4.py:19-46 | a single self-loop is a cycle |
| Acyclicity.ChainIsAcyclic | zad2-v4.py:19-46 | A->B->C has no cycle, so the verdict for it is true |
| Acyclicity.EmptyIsAcyclic | zad2-v4.py:19-46 | the empty edge list has no cycle |
| Adjacency.GetAdjList | zad2-v4.py:49-60 | the keys are exactly the edge endpoints, strictly ascending; each list is the node's neighbours in append order |
| Adjacency.RecordEdge | zad2-v4.py:52-58 | one edge gives both endpoints a list if missing, and appends each endpoint to the other's list |
| Adjacency.SortIds | zad2-v4.py:60 | the result is strictly ascending and a permutation of the keys |
| Adjacency.AdjMember | zad2-v4.py:51-58 | y is a neighbour of x exactly when some edge joins x and y in either direction |
| Adjacency.AdjLength | zad2-v4.py:57-58 | each list has one entry per edge leaving the node plus one per edge entering it |
| Adjacency.AdjSymmetric | zad2-v4.py:57-58 | y is listed at x exactly when x is listed at y |
| Adjacency.AdjListShape | zad2-v4.py:49-60 | the result is sorted, its key list matches its map, every neighbour is a key, and adjacency is symmetric |
| Adjacency.AdjKeysAreEndpoints | zad2-v4.py:51-56 | a task has a non-empty list exactly when some edge mentions it |
| Schedule.GetOrdering | zad2-v4.py:63-75 | the keys are those of the adjacency view, in the same order. Each start is the largest finish of a smaller neighbour, or 0 when that is negative or there is none. So every start is at least 0 and at least each smaller neighbour's finish |
| Schedule.LatestPredecessorFinish | zad2-v4.py:67-73 | the value for a key is its earliest start, over the starts already computed |
| Schedule.ScheduleUnique | zad2-v4.py:63-75 | only one assignment meets that description, so the result is determined by the adjacency view and the durations |
| Schedule.ChainSchedule | zad2-v4.py:63-75 | on A->B->C with durations A=3, B=2, C=4 the starts are A=0, B=3, C=5 |
| Schedule.ExtendNodes | zad2-v4.py:125-134 | the keys are those of the adjacency view, in order; each has its declared duration, or 0 when it has none |
| Schedule.KeyDurationsSuffice | zad2-v4.py:125-134 | a duration for every key, as extend_nodes gives, covers every lookup of a smaller neighbour's duration in get_ordering |
| Schedule.TotalTime | zad2-v4.py:112-122 | the reported total is 0 when there are no tasks, and otherwise the finish of the last key of the start map |
| Schedule.ChainAdjIsBuilt | zad2-v4.py:49-60 | any result of get_adj_list for the edges A->B, B->C is the view with keys A, B, C and lists A: B; B: A, C; C: B |
| Schedule.ForkAdjIsBuilt | zad2-v4.py:49-60 | any result of get_adj_list for the edges A->B, A->C is the view with keys A, B, C and lists A: B, C; B: A; C: A |
| Schedule.ForkRun | zad2-v4.py:195-197 | running get_adj_list, get_ordering and the total of print_result on the fork A->B, A->C with durations A=1, B=10, C=1 gives starts A=0, B=1, C=1 and a total of 2, below the project's end |
| Schedule.ForkTotalMissesLaterFinish | zad2-v4.py:115-122 | on A->B, A->C with durations A=1, B=10, C=1 the reported total is 2 while the project ends at 11 |
| Schedule.LatestEnd | zad2-v4.py:115-122 | the latest finish among the first n keys: at least 0, no earlier than any of their finishes, and 0 or equal to one of them |
| Schedule.ProjectEndBounds | zad2-v4.py:115-122 | the corrected total is no earlier than the reported one, and no task finishes after it |
| CriticalPath.GetNextNode | zad2-v4.py:78-88 | the result is a neighbour with a larger identifier and a positive duration. No larger neighbour lasts longer, and every earlier larger neighbour is strictly shorter. The result is None exactly when no larger neighbour has a positive duration |
| CriticalPath.GreedyChoiceUnique | zad2-v4.py:78-88 | there is only one such choice |
| CriticalPath.GetCriticalPath | zad2-v4.py:91-106 | the walk fails with NoTasks exactly when there are no tasks, and with NotInGraph exactly when the first task has no adjacency list. A success is a greedy walk of at least two tasks from the first key to the last key, meeting the last key only at the end. A MissingDuration failure is a greedy walk from the first key that never meets the last key and ends at a task with a later neighbour that has no duration. A DeadEnd failure is such a walk that ends where no later neighbour has a positive duration |
| CriticalPath.WalkExtend | zad2-v4.py:100-104 | appending the greedy choice extends a strictly increasing walk over keys, and the walk stays no longer than the number of keys |
| CriticalPath.GreedyWalkIncreasing | zad2-v4.py:100-104 | identifiers strictly increase along a greedy walk, so it is no longer than the number of keys |
| CriticalPath.GreedyWalkUnique | zad2-v4.py:91-106 | two greedy walks of the same length from the same task are equal |
| CriticalPath.GetDurations | zad2-v4.py:137-143 | the list is as long as the path, and its i-th entry is the duration of the path's i-th task |
| CriticalPath.StartsAfterPreviousOnPath | zad2-v4.py:68-73 | along a greedy walk, each task starts no earlier than the previous one finishes |
| CriticalPath.GanttOffsetsWithinSchedule | zad2-v4.py:178-179 | the bar offset `sum(durations[:i])` is at most how far the i-th task's earliest start lies after the first task's |
| CriticalPath.ChainCriticalPath | zad2-v4.py:91-106 | on A->B->C with durations A=3, B=2, C=4 the greedy walk is A, B, C |
| CriticalPath.ChainWalks | zad2-v4.py:100-104 | on that chain, every greedy walk from A is a prefix of A, B, C |
| CriticalPath.ChainNoDeadEnd | zad2-v4.py:78-88 | on that chain, a greedy walk from A that has not reached C always has a next task |
| CriticalPath.ChainOutcome | zad2-v4.py:91-106 | on that chain, the only outcome get_critical_path allows is the path A, B, C |
| CriticalPath.ChainRun | zad2-v4.py:195-199 | running get_adj_list, get_ordering and get_critical_path on the edges A->B, B->C with durations A=3, B=2, C=4 gives starts A=0, B=3, C=5 and the path A, B, C |

## Left out

- Input and output are not modelled: `get_input`, `json.loads`, `main`, `sys.exit`, and
  the report strings and `print` calls of `print_result`. Only the total's arithmetic is
  modelled.
- The drawing code is not modelled: `print_graph` and `print_gantt` call networkx and
  matplotlib. The only part kept is the arithmetic of the Gantt bar offsets.
- Durations are integers. Values read from JSON that are not integers are not modelled.
- Schedule.GetOrdering requires the shape get_adj_list produces: keys in ascending order
  and every neighbour a key. `main` only passes get_adj_list's output (lines 195-197). It
  also requires a duration for every smaller neighbour, which `nodes[n]` at line 72 reads.
  A missing one is a `KeyError` that the model does not return as an error.
- CriticalPath.GetNextNode requires a duration for every larger neighbour, which
  `nodes[next]` at line 84 reads. Its caller, CriticalPath.GetCriticalPath, checks this
  first and returns `MissingDuration` where Python raises `KeyError`.
- CriticalPath.GetCriticalPath requires the adjacency shape from get_adj_list, for the same
  reason as Schedule.GetOrdering.
- Schedule.ExtendNodes and Schedule.TotalTime require well-formed dicts: distinct keys
  that match the map. This holds for every Python dict.
- Schedule.TotalTime also requires a duration for each key of the start map, which
  `nodes[k]` at lines 117 and 120 reads.
- Python's `sorted()` is a library call. Adjacency.SortIds produces the same order with
  an insertion sort, and is proved only by that result.
- The queue of `is_acyclic` is a sequence whose order is stated exactly by
  Acyclicity.SeedQueue and Acyclicity.Visit. Acyclicity.RemoveOutEdges and
  Acyclicity.Drain state which tasks are appended, not in which order.

## Findings

| source | as written | input that shows it | evidently intended | confidence | as-written member | corrected member |
|---|---|---|---|---|---|---|
| zad2-v4.py:115-122 | the reported total is the finish of the last key in the start map, which is the largest identifier | edges A->B and A->C with durations A=1, B=10, C=1: starts are A=0, B=1, C=1; the reported total is 2, but B finishes at 11 | the total execution time is the latest finish of any task | medium, not executed | Schedule.ForkTotalMissesLaterFinish | Schedule.ProjectEndBounds |
