/** is_acyclic: Kahn's topological reduction over the directed edge list. */
module Acyclicity {
  import opened Dicts
  import opened Graph

  /** A read of a `defaultdict(int)`: a missing key reads as 0. */
  function Get(m: map<Id, int>, k: Id): int {
    if k in m then m[k] else 0
  }

  /** Every edge into a ranked node comes from an earlier-ranked node. */
  ghost predicate Ranked(edges: seq<Edge>, rank: map<Id, nat>) {
    forall i :: 0 <= i < |edges| && edges[i].1 in rank ==>
      edges[i].0 in rank && rank[edges[i].0] < rank[edges[i].1]
  }

  /** The nodes of `enq` (dequeued, being processed, or queued) are distinct nodes, they
      are exactly the nodes whose in-degree has reached 0, and `rank` numbers them in
      enqueueing order so that it increases along every edge into them. */
  ghost predicate Enqueued(edges: seq<Edge>, inDegree: map<Id, int>, enq: seq<Id>, rank: map<Id, nat>) {
    && Distinct(enq) && Elems(enq) <= Nodes(edges)
    && (forall x :: x in Nodes(edges) ==> (x in enq <==> Get(inDegree, x) == 0))
    && rank.Keys == Elems(enq) && (forall y :: y in rank ==> rank[y] < |enq|)
    && Ranked(edges, rank)
  }

  /** The state of the drain loop once the nodes of `done` have been dequeued and their
      out-edges removed: `order`/`graph` is the defaultdict of successor lists (the sources
      plus the dequeued sinks it has been read at), and each remaining in-degree counts the
      edges from nodes not yet dequeued. */
  ghost predicate Draining(edges: seq<Edge>, order: seq<Id>, graph: map<Id, seq<Id>>,
                           inDegree: map<Id, int>, done: seq<Id>, queue: seq<Id>, rank: map<Id, nat>)
  {
    && graph.Keys == Sources(edges) + Elems(done)
    && Distinct(order) && Elems(order) == graph.Keys
    && (forall u :: u in graph ==> graph[u] == Succs(edges, |edges|, u))
    && (forall v :: Get(inDegree, v) == InDeg(edges, |edges|, v) - Count(edges, |edges|, v, Elems(done)))
    && Enqueued(edges, inDegree, done + queue, rank)
  }

  /** Reports whether the directed edge list is free of cycles (a self-loop is a cycle).
      The verdict is false when, after the drain, some key of the successor map keeps a
      positive in-degree. */
  method IsAcyclic(edges: seq<Edge>) returns (ok: bool)
    ensures ok <==> !HasCycle(edges)
  {
    var order, graph, inDegree := BuildGraph(edges);
    var queue: seq<Id>;
    ghost var rank: map<Id, nat>;
    queue, rank := SeedQueue(edges, order, graph, inDegree);
    ghost var done: seq<Id>;
    order, graph, inDegree, done, rank := Drain(edges, order, graph, inDegree, queue, rank);

    var stuck := FindPositive(order, inDegree);
    if stuck.Some? {
      DrainedPositiveHasCycle(edges, inDegree, done, stuck.value);
      return false;
    }
    assert done + [] == done;
    DrainedZeroIsAcyclic(edges, order, inDegree, done, rank);
    return true;
  }

  /** The final scan of is_acyclic: the first key, in key order, whose in-degree is still
      positive. */
  method FindPositive(order: seq<Id>, inDegree: map<Id, int>) returns (stuck: Option<Id>)
    ensures stuck.Some? ==> stuck.value in order && Get(inDegree, stuck.value) > 0
    ensures stuck.None? ==> forall m :: 0 <= m < |order| ==> Get(inDegree, order[m]) <= 0
  {
    var k := 0;
    while k < |order|
      invariant 0 <= k <= |order|
      invariant forall m :: 0 <= m < k ==> Get(inDegree, order[m]) <= 0
    {
      if Get(inDegree, order[k]) > 0 {
        return Some(order[k]);
      }
      k := k + 1;
    }
    return None;
  }

  /** The first loop of is_acyclic: successor lists in edge order (keys in first-seen
      order of the sources) and in-degree counts. */
  method BuildGraph(edges: seq<Edge>) returns (order: seq<Id>, graph: map<Id, seq<Id>>, inDegree: map<Id, int>)
    ensures graph.Keys == Sources(edges)
    ensures Distinct(order) && Elems(order) == graph.Keys
    ensures order == FirstSources(edges, |edges|)
    ensures forall u :: u in graph ==> graph[u] == Succs(edges, |edges|, u)
    ensures forall v :: Get(inDegree, v) == InDeg(edges, |edges|, v)
  {
    order, graph, inDegree := [], map[], map[];
    for i := 0 to |edges|
      invariant order == FirstSources(edges, i)
      invariant Elems(order) == graph.Keys
      invariant forall u :: u in graph ==> graph[u] == Succs(edges, i, u)
      invariant forall v :: Get(inDegree, v) == InDeg(edges, i, v)
    {
      order, graph, inDegree := AddEdge(edges, i, order, graph, inDegree);
    }
    FirstSourcesShape(edges, |edges|);
  }

  /** One iteration of the first loop: `graph[u].append(v)` on the defaultdict (which
      inserts `u` first when it is new) and `in_degree[v] += 1`. */
  method AddEdge(edges: seq<Edge>, i: nat, order0: seq<Id>, graph0: map<Id, seq<Id>>, inDegree0: map<Id, int>)
    returns (order: seq<Id>, graph: map<Id, seq<Id>>, inDegree: map<Id, int>)
    requires i < |edges|
    requires order0 == FirstSources(edges, i)
    requires Elems(order0) == graph0.Keys
    requires forall u :: u in graph0 ==> graph0[u] == Succs(edges, i, u)
    requires forall v :: Get(inDegree0, v) == InDeg(edges, i, v)
    ensures order == FirstSources(edges, i + 1)
    ensures Elems(order) == graph.Keys
    ensures forall u :: u in graph ==> graph[u] == Succs(edges, i + 1, u)
    ensures forall v :: Get(inDegree, v) == InDeg(edges, i + 1, v)
  {
    var (u, v) := edges[i];
    order, graph := order0, graph0;
    if u !in graph {
      NewSourceHasNoSuccessors(edges, i, u);
      ElemsAppend(order, u);
      graph := graph[u := []];
      order := order + [u];
    }
    graph := graph[u := graph[u] + [v]];
    inDegree := inDegree0[v := Get(inDegree0, v) + 1];
  }

  /** The keys of `order`, in order, whose in-degree reads as 0. */
  function ZeroKeys(order: seq<Id>, inDegree: map<Id, int>): seq<Id> {
    if order == [] then []
    else
      var last := order[|order| - 1];
      ZeroKeys(order[..|order| - 1], inDegree) + (if Get(inDegree, last) == 0 then [last] else [])
  }

  /** The initial queue: the keys of the successor map, in key order, whose in-degree is 0. */
  method SeedQueue(edges: seq<Edge>, order: seq<Id>, graph: map<Id, seq<Id>>, inDegree: map<Id, int>)
    returns (queue: seq<Id>, ghost rank: map<Id, nat>)
    requires graph.Keys == Sources(edges)
    requires Distinct(order) && Elems(order) == graph.Keys
    requires forall u :: u in graph ==> graph[u] == Succs(edges, |edges|, u)
    requires forall v :: Get(inDegree, v) == InDeg(edges, |edges|, v)
    ensures queue == ZeroKeys(order, inDegree)
    ensures forall x :: x in queue <==> x in order && InDeg(edges, |edges|, x) == 0
    ensures Draining(edges, order, graph, inDegree, [], queue, rank)
  {
    queue, rank := [], map[];
    for k := 0 to |order|
      invariant queue == ZeroKeys(order[..k], inDegree)
      invariant rank.Keys == Elems(queue) && forall y :: y in rank ==> rank[y] < |queue|
    {
      PrefixStep(order, k);
      assert order[..k + 1][..k] == order[..k];
      if Get(inDegree, order[k]) == 0 {
        ElemsAppend(queue, order[k]);
        rank := rank[order[k] := |queue|];
        queue := queue + [order[k]];
      }
    }
    assert order[..|order|] == order;
    ZeroKeysShape(order, inDegree);
    SeededDraining(edges, order, graph, inDegree, queue, rank);
  }

  /** The zero keys of `order` are exactly its keys whose in-degree reads as 0, each once
      when `order` lists each key once. */
  lemma {:induction false} ZeroKeysShape(order: seq<Id>, inDegree: map<Id, int>)
    ensures forall x :: x in ZeroKeys(order, inDegree) <==> x in order && Get(inDegree, x) == 0
    ensures Distinct(order) ==> Distinct(ZeroKeys(order, inDegree))
  {
    if order != [] {
      var init, last := order[..|order| - 1], order[|order| - 1];
      ZeroKeysShape(init, inDegree);
      assert order == init + [last];
      if Distinct(order) {
        assert Distinct(init) by {
          forall i, j | 0 <= i < j < |init| ensures init[i] != init[j] {
            assert init[i] == order[i] && init[j] == order[j];
          }
        }
        if Get(inDegree, last) == 0 {
          DistinctNotInPrefix(order, |order| - 1);
          DistinctAppend(ZeroKeys(init, inDegree), last);
        }
      }
    }
  }

  /** The seeded queue starts the drain: nothing dequeued yet, and the queued nodes are
      exactly the nodes of in-degree 0, ranked in queue order. */
  lemma SeededDraining(edges: seq<Edge>, order: seq<Id>, graph: map<Id, seq<Id>>, inDegree: map<Id, int>,
                       queue: seq<Id>, rank: map<Id, nat>)
    requires graph.Keys == Sources(edges)
    requires Distinct(order) && Elems(order) == graph.Keys
    requires forall u :: u in graph ==> graph[u] == Succs(edges, |edges|, u)
    requires forall v :: Get(inDegree, v) == InDeg(edges, |edges|, v)
    requires forall x :: x in queue <==> x in order && InDeg(edges, |edges|, x) == 0
    requires Distinct(queue)
    requires rank.Keys == Elems(queue) && forall y :: y in rank ==> rank[y] < |queue|
    requires forall y :: y in rank ==> InDeg(edges, |edges|, y) == 0
    ensures Draining(edges, order, graph, inDegree, [], queue, rank)
  {
    SeededCounts(edges, inDegree);
    SeededEnqueued(edges, order, inDegree, queue, rank);
  }

  lemma SeededCounts(edges: seq<Edge>, inDegree: map<Id, int>)
    requires forall v :: Get(inDegree, v) == InDeg(edges, |edges|, v)
    ensures forall v :: Get(inDegree, v) == InDeg(edges, |edges|, v) - Count(edges, |edges|, v, Elems([]))
  {
    assert Elems([]) == {};
    forall v ensures Count(edges, |edges|, v, {}) == 0 {
      CountEmpty(edges, |edges|, v);
    }
  }

  lemma SeededEnqueued(edges: seq<Edge>, order: seq<Id>, inDegree: map<Id, int>, queue: seq<Id>, rank: map<Id, nat>)
    requires Elems(order) == Sources(edges)
    requires forall v :: Get(inDegree, v) == InDeg(edges, |edges|, v)
    requires forall x :: x in queue <==> x in order && InDeg(edges, |edges|, x) == 0
    requires Distinct(queue)
    requires rank.Keys == Elems(queue) && forall y :: y in rank ==> rank[y] < |queue|
    requires forall y :: y in rank ==> InDeg(edges, |edges|, y) == 0
    ensures Enqueued(edges, inDegree, [] + queue, rank)
  {
    InitialQueueFacts(edges, order, queue, rank);
    assert [] + queue == queue;
  }

  /** The drain loop: dequeue until the queue is empty. No node is enqueued twice, so the
      loop runs at most once per node. */
  method Drain(edges: seq<Edge>, order0: seq<Id>, graph0: map<Id, seq<Id>>, inDegree0: map<Id, int>,
               queue0: seq<Id>, ghost rank0: map<Id, nat>)
    returns (order: seq<Id>, graph: map<Id, seq<Id>>, inDegree: map<Id, int>,
             ghost done: seq<Id>, ghost rank: map<Id, nat>)
    requires Draining(edges, order0, graph0, inDegree0, [], queue0, rank0)
    ensures Draining(edges, order, graph, inDegree, done, [], rank)
    ensures forall v :: Get(inDegree, v) >= 0
    ensures |done| <= |Nodes(edges)|
  {
    order, graph, inDegree, done, rank := order0, graph0, inDegree0, [], rank0;
    var queue := queue0;
    while queue != []
      invariant Draining(edges, order, graph, inDegree, done, queue, rank)
      decreases |Nodes(edges)| - |done|
    {
      var u := queue[0];
      ghost var order1, graph1, queue1 := order, graph, queue;
      queue := queue[1..];
      if u !in graph {
        // `graph[u]` on a defaultdict inserts the sink u with an empty list
        graph := graph[u := []];
        order := order + [u];
      }
      var succs := graph[u];
      DequeueStep(edges, order1, graph1, inDegree, done, queue1, rank, order, graph);
      inDegree, queue, rank := RemoveOutEdges(edges, done, u, succs, inDegree, queue, rank);
      done := done + [u];
    }
    DrainedBound(edges, done, rank);
    RemainingNonNegative(edges, inDegree, Elems(done));
  }

  /** The inner loop of the drain: lower the in-degree of each successor of the dequeued
      `u`, enqueueing each one whose in-degree reaches 0 (in-degrees never go below 0). */
  method RemoveOutEdges(edges: seq<Edge>, ghost done: seq<Id>, u: Id, succs: seq<Id>,
                        inDegree0: map<Id, int>, queue0: seq<Id>, ghost rank0: map<Id, nat>)
    returns (inDegree: map<Id, int>, queue: seq<Id>, ghost rank: map<Id, nat>)
    requires succs == Succs(edges, |edges|, u) && u !in done
    requires forall v :: Get(inDegree0, v) == InDeg(edges, |edges|, v) - Count(edges, |edges|, v, Elems(done))
    requires Enqueued(edges, inDegree0, done + [u] + queue0, rank0)
    ensures forall v :: Get(inDegree, v) == InDeg(edges, |edges|, v) - Count(edges, |edges|, v, Elems(done + [u]))
    ensures forall v :: Get(inDegree, v) >= 0
    ensures Enqueued(edges, inDegree, done + [u] + queue, rank)
    ensures |queue0| <= |queue|
    ensures forall i :: 0 <= i < |queue0| ==> queue[i] == queue0[i]
    ensures forall i :: |queue0| <= i < |queue| ==> queue[i] in succs
  {
    inDegree, queue, rank := inDegree0, queue0, rank0;
    VisitStart(edges, done, u, succs, inDegree, queue, rank);
    for j := 0 to |succs|
      invariant Visiting(edges, done, u, succs, j, inDegree, queue, rank)
      invariant |queue0| <= |queue|
      invariant forall i :: 0 <= i < |queue0| ==> queue[i] == queue0[i]
      invariant forall i :: |queue0| <= i < |queue| ==> queue[i] in succs
    {
      inDegree, queue, rank := Advance(edges, done, u, succs, j, inDegree, queue, rank);
    }
    VisitEnd(edges, done, u, succs, inDegree, queue, rank);
    RemainingNonNegative(edges, inDegree, Elems(done + [u]));
  }

  /** An in-degree that counts the edges from outside `D` is never negative. */
  lemma RemainingNonNegative(edges: seq<Edge>, inDegree: map<Id, int>, D: set<Id>)
    requires forall v :: Get(inDegree, v) == InDeg(edges, |edges|, v) - Count(edges, |edges|, v, D)
    ensures forall v :: Get(inDegree, v) >= 0
  {
    forall v ensures Get(inDegree, v) >= 0 {
      CountBound(edges, |edges|, v, D);
    }
  }

  /** `Visit` keeps the state of the inner loop. */
  method Advance(edges: seq<Edge>, ghost done: seq<Id>, u: Id, succs: seq<Id>, j: nat,
                 inDegree0: map<Id, int>, queue0: seq<Id>, ghost rank0: map<Id, nat>)
    returns (inDegree: map<Id, int>, queue: seq<Id>, ghost rank: map<Id, nat>)
    requires succs == Succs(edges, |edges|, u) && j < |succs| && u !in done
    requires Visiting(edges, done, u, succs, j, inDegree0, queue0, rank0)
    ensures Visiting(edges, done, u, succs, j + 1, inDegree, queue, rank)
    ensures |queue0| <= |queue|
    ensures forall i :: 0 <= i < |queue0| ==> queue[i] == queue0[i]
    ensures forall i :: |queue0| <= i < |queue| ==> queue[i] == succs[j]
  {
    inDegree, queue, rank := Visit(done, u, succs, j, inDegree0, queue0, rank0);
    VisitStep(edges, done, u, succs, j, inDegree0, queue0, rank0, inDegree, queue, rank);
  }

  /** One iteration of the inner loop: `in_degree[v] -= 1` for the `j`-th successor `v`,
      which joins the back of the queue, with the next rank, when that makes its in-degree 0. */
  method Visit(ghost done: seq<Id>, u: Id, succs: seq<Id>, j: nat,
               inDegree0: map<Id, int>, queue0: seq<Id>, ghost rank0: map<Id, nat>)
    returns (inDegree: map<Id, int>, queue: seq<Id>, ghost rank: map<Id, nat>)
    requires j < |succs|
    ensures inDegree == inDegree0[succs[j] := Get(inDegree0, succs[j]) - 1]
    ensures queue == queue0 + (if Get(inDegree, succs[j]) == 0 then [succs[j]] else [])
    ensures rank == if Get(inDegree, succs[j]) == 0 then rank0[succs[j] := |done + [u] + queue0|] else rank0
  {
    var v := succs[j];
    inDegree := inDegree0[v := Get(inDegree0, v) - 1];
    if inDegree[v] == 0 {
      rank := rank0[v := |done + [u] + queue0|];
      queue := queue0 + [v];
    } else {
      queue, rank := queue0, rank0;
    }
  }

  /** The state of the inner loop after the first `j` successors of `u` were visited. */
  ghost predicate Visiting(edges: seq<Edge>, done: seq<Id>, u: Id, succs: seq<Id>, j: nat,
                           inDegree: map<Id, int>, queue: seq<Id>, rank: map<Id, nat>)
  {
    && j <= |succs|
    && (forall v :: Get(inDegree, v) ==
          InDeg(edges, |edges|, v) - Count(edges, |edges|, v, Elems(done)) - multiset(succs[..j])[v])
    && Enqueued(edges, inDegree, done + [u] + queue, rank)
  }

  lemma VisitStart(edges: seq<Edge>, done: seq<Id>, u: Id, succs: seq<Id>,
                   inDegree: map<Id, int>, queue: seq<Id>, rank: map<Id, nat>)
    requires forall v :: Get(inDegree, v) == InDeg(edges, |edges|, v) - Count(edges, |edges|, v, Elems(done))
    requires Enqueued(edges, inDegree, done + [u] + queue, rank)
    ensures Visiting(edges, done, u, succs, 0, inDegree, queue, rank)
  {
    assert succs[..0] == [];
  }

  lemma VisitEnd(edges: seq<Edge>, done: seq<Id>, u: Id, succs: seq<Id>,
                 inDegree: map<Id, int>, queue: seq<Id>, rank: map<Id, nat>)
    requires succs == Succs(edges, |edges|, u) && u !in done
    requires Visiting(edges, done, u, succs, |succs|, inDegree, queue, rank)
    ensures forall v :: Get(inDegree, v) == InDeg(edges, |edges|, v) - Count(edges, |edges|, v, Elems(done + [u]))
    ensures Enqueued(edges, inDegree, done + [u] + queue, rank)
  {
    assert succs[..|succs|] == succs;
    assert Elems(done + [u]) == Elems(done) + {u};
    DequeueFacts(edges, Elems(done), u);
  }

  /** Visiting the `j`-th successor `v`: its in-degree is lowered by one, and it is
      enqueued with the next rank exactly when that makes it 0. */
  lemma VisitStep(edges: seq<Edge>, done: seq<Id>, u: Id, succs: seq<Id>, j: nat,
                  inDegree0: map<Id, int>, queue0: seq<Id>, rank0: map<Id, nat>,
                  inDegree: map<Id, int>, queue: seq<Id>, rank: map<Id, nat>)
    requires succs == Succs(edges, |edges|, u) && j < |succs| && u !in done
    requires Visiting(edges, done, u, succs, j, inDegree0, queue0, rank0)
    requires inDegree == inDegree0[succs[j] := Get(inDegree0, succs[j]) - 1]
    requires queue == queue0 + (if Get(inDegree, succs[j]) == 0 then [succs[j]] else [])
    requires rank == if Get(inDegree, succs[j]) == 0 then rank0[succs[j] := |done + [u] + queue0|] else rank0
    ensures Visiting(edges, done, u, succs, j + 1, inDegree, queue, rank)
  {
    VisitCount(edges, done, u, succs, j, inDegree0);
    VisitEnqueue(edges, done, u, succs, j, inDegree0, queue0, rank0);
    var v := succs[j];
    assert Get(inDegree, v) == inDegree[v];
    if inDegree[v] == 0 {
      assert Enqueued(edges, inDegree, done + [u] + (queue0 + [v]), rank);
      assert queue == queue0 + [v];
    } else {
      assert Enqueued(edges, inDegree, done + [u] + queue0, rank);
      assert queue == queue0;
    }
  }

  /** The count half of visiting the `j`-th successor. */
  lemma VisitCount(edges: seq<Edge>, done: seq<Id>, u: Id, succs: seq<Id>, j: nat, inDegree: map<Id, int>)
    requires succs == Succs(edges, |edges|, u) && j < |succs| && u !in done
    requires forall v :: Get(inDegree, v) ==
               InDeg(edges, |edges|, v) - Count(edges, |edges|, v, Elems(done)) - multiset(succs[..j])[v]
    ensures succs[j] in Nodes(edges)
    ensures Get(inDegree, succs[j]) >= 1
    ensures forall v :: Get(inDegree[succs[j] := Get(inDegree, succs[j]) - 1], v) ==
                        InDeg(edges, |edges|, v) - Count(edges, |edges|, v, Elems(done)) - multiset(succs[..j + 1])[v]
    ensures Get(inDegree, succs[j]) == 1 ==>
              forall i :: 0 <= i < |edges| && edges[i].1 == succs[j] ==> edges[i].0 in Elems(done) + {u}
  {
    DequeueFacts(edges, Elems(done), u);
    LowerInDegree(edges, Elems(done), u, succs, j, inDegree);
  }

  /** The queue half of visiting the `j`-th successor `v`, whose in-degree was positive. */
  lemma VisitEnqueue(edges: seq<Edge>, done: seq<Id>, u: Id, succs: seq<Id>, j: nat,
                     inDegree: map<Id, int>, queue: seq<Id>, rank: map<Id, nat>)
    requires j < |succs| && succs[j] in Nodes(edges) && Get(inDegree, succs[j]) >= 1
    requires Get(inDegree, succs[j]) == 1 ==>
               forall i :: 0 <= i < |edges| && edges[i].1 == succs[j] ==> edges[i].0 in Elems(done) + {u}
    requires Enqueued(edges, inDegree, done + [u] + queue, rank)
    ensures var v := succs[j];
            var lowered := inDegree[v := Get(inDegree, v) - 1];
            if lowered[v] == 0
            then Enqueued(edges, lowered, done + [u] + (queue + [v]), rank[v := |done + [u] + queue|])
            else Enqueued(edges, lowered, done + [u] + queue, rank)
  {
    var v := succs[j];
    var enq := done + [u] + queue;
    if Get(inDegree, v) == 1 {
      assert Elems(done) + {u} <= Elems(enq);
      EnqueueReached(edges, Elems(done) + {u}, inDegree, enq, rank, v);
      assert done + [u] + (queue + [v]) == enq + [v];
    } else {
      KeepEnqueued(edges, inDegree, enq, rank, v);
    }
  }

  /** Dequeueing `u` from the drain state: the successor map read at `u` is exact for the
      dequeued nodes plus `u`, the inner loop's requirements hold, and the drain has not
      yet dequeued every node. */
  lemma DequeueStep(edges: seq<Edge>, order0: seq<Id>, graph0: map<Id, seq<Id>>, inDegree: map<Id, int>,
                    done: seq<Id>, queue0: seq<Id>, rank: map<Id, nat>,
                    order: seq<Id>, graph: map<Id, seq<Id>>)
    requires Draining(edges, order0, graph0, inDegree, done, queue0, rank)
    requires queue0 != []
    requires var u := queue0[0]; u in graph0 ==> order == order0 && graph == graph0
    requires var u := queue0[0]; u !in graph0 ==> order == order0 + [u] && graph == graph0[u := []]
    ensures var u := queue0[0]; u !in done && |done| < |Nodes(edges)|
    ensures graph.Keys == Sources(edges) + Elems(done + [queue0[0]])
    ensures Distinct(order) && Elems(order) == graph.Keys
    ensures forall w :: w in graph ==> graph[w] == Succs(edges, |edges|, w)
    ensures Enqueued(edges, inDegree, done + [queue0[0]] + queue0[1..], rank)
  {
    QueueFront(edges, inDegree, done, queue0, rank);
    SuccessorMapStep(edges, order0, graph0, done, queue0[0], order, graph);
  }

  /** Taking the front `u` off the queue: `u` was not dequeued before, and fewer nodes than
      there are have been dequeued so far. */
  lemma QueueFront(edges: seq<Edge>, inDegree: map<Id, int>, done: seq<Id>, queue0: seq<Id>, rank: map<Id, nat>)
    requires Enqueued(edges, inDegree, done + queue0, rank)
    requires queue0 != []
    ensures queue0[0] !in done && |done| < |Nodes(edges)|
    ensures Enqueued(edges, inDegree, done + [queue0[0]] + queue0[1..], rank)
  {
    var u, queue := queue0[0], queue0[1..];
    assert done + [u] + queue == done + queue0;
    DistinctSplit(done, u, queue);
    DistinctBound(done + [u] + queue, Nodes(edges));
  }

  /** When the queue is empty the dequeued nodes are distinct nodes. */
  lemma DrainedBound(edges: seq<Edge>, done: seq<Id>, rank: map<Id, nat>)
    requires Distinct(done + []) && Elems(done + []) <= Nodes(edges)
    ensures |done| <= |Nodes(edges)|
  {
    assert done + [] == done;
    DistinctBound(done, Nodes(edges));
  }

  /** Reading `graph[u]` for the dequeued `u` keeps the successor map exact: it now has a
      key for every source and every dequeued node. */
  lemma SuccessorMapStep(edges: seq<Edge>, order0: seq<Id>, graph0: map<Id, seq<Id>>, done: seq<Id>, u: Id,
                         order: seq<Id>, graph: map<Id, seq<Id>>)
    requires graph0.Keys == Sources(edges) + Elems(done)
    requires Distinct(order0) && Elems(order0) == graph0.Keys
    requires forall w :: w in graph0 ==> graph0[w] == Succs(edges, |edges|, w)
    requires u in graph0 ==> order == order0 && graph == graph0
    requires u !in graph0 ==> order == order0 + [u] && graph == graph0[u := []]
    ensures graph.Keys == Sources(edges) + Elems(done + [u])
    ensures Distinct(order)
    ensures Elems(order) == graph.Keys
    ensures forall w :: w in graph ==> graph[w] == Succs(edges, |edges|, w)
  {
    KeysStep(Sources(edges), order0, graph0, done, u, order, graph);
    if u !in graph0 {
      SinkHasNoSuccessors(edges, u);
    }
  }

  /** The key bookkeeping of `SuccessorMapStep`, for any set `S` of initial keys. */
  lemma KeysStep(S: set<Id>, order0: seq<Id>, graph0: map<Id, seq<Id>>, done: seq<Id>, u: Id,
                 order: seq<Id>, graph: map<Id, seq<Id>>)
    requires graph0.Keys == S + Elems(done)
    requires Distinct(order0) && Elems(order0) == graph0.Keys
    requires u in graph0 ==> order == order0 && graph == graph0
    requires u !in graph0 ==> order == order0 + [u] && graph == graph0[u := []]
    ensures graph.Keys == S + Elems(done + [u])
    ensures Distinct(order)
    ensures Elems(order) == graph.Keys
  {
    assert Elems(done + [u]) == Elems(done) + {u};
    if u !in graph0 {
      DistinctAppend(order0, u);
    }
  }

  /** A node that is not the source of any edge has no successors. */
  lemma SinkHasNoSuccessors(edges: seq<Edge>, u: Id)
    requires u !in Sources(edges)
    ensures Succs(edges, |edges|, u) == []
  {
    assert forall i :: 0 <= i < |edges| ==> edges[i].0 != u by {
      forall i | 0 <= i < |edges| ensures edges[i].0 != u {
        assert edges[i].0 in Sources(edges);
      }
    }
    SuccsOnlyTargets(edges, |edges|, u);
  }

  /** Lowering the in-degree of the `j`-th successor `v` of `u` keeps the count exact; `v`
      is a node, its in-degree was positive, and it reaches 0 only once every edge into `v`
      comes from `D + {u}`. */
  lemma LowerInDegree(edges: seq<Edge>, D: set<Id>, u: Id, succs: seq<Id>, j: nat, inDegree: map<Id, int>)
    requires succs == Succs(edges, |edges|, u) && j < |succs|
    requires forall v :: Count(edges, |edges|, v, D) + multiset(succs)[v] == Count(edges, |edges|, v, D + {u})
    requires forall v :: Count(edges, |edges|, v, D + {u}) <= InDeg(edges, |edges|, v)
    requires forall v :: Get(inDegree, v) == InDeg(edges, |edges|, v) - Count(edges, |edges|, v, D) - multiset(succs[..j])[v]
    ensures succs[j] in Nodes(edges)
    ensures Get(inDegree, succs[j]) >= 1
    ensures forall v :: Get(inDegree[succs[j] := Get(inDegree, succs[j]) - 1], v) ==
                        InDeg(edges, |edges|, v) - Count(edges, |edges|, v, D) - multiset(succs[..j + 1])[v]
    ensures Get(inDegree, succs[j]) == 1 ==>
              forall i :: 0 <= i < |edges| && edges[i].1 == succs[j] ==> edges[i].0 in D + {u}
  {
    var v := succs[j];
    SuccessorIsNode(edges, u, succs, j);
    PrefixMultiset(succs, j);
    CountBound(edges, |edges|, v, D + {u});
  }

  /** Every successor of `u` is the target of an edge from `u`. */
  lemma SuccessorIsNode(edges: seq<Edge>, u: Id, succs: seq<Id>, j: nat)
    requires succs == Succs(edges, |edges|, u) && j < |succs|
    ensures succs[j] in Nodes(edges)
  {
    SuccsOnlyTargets(edges, |edges|, u);
    assert succs[j] in succs;
    var i :| 0 <= i < |edges| && edges[i] == (u, succs[j]);
    assert succs[j] in Targets(edges);
  }

  /** Extending a prefix of `s` by one element adds one occurrence of that element, and
      a prefix holds no more occurrences than the whole. */
  lemma PrefixMultiset(s: seq<Id>, j: nat)
    requires j < |s|
    ensures forall x :: multiset(s[..j + 1])[x] == multiset(s[..j])[x] + (if x == s[j] then 1 else 0)
    ensures multiset(s[..j + 1])[s[j]] <= multiset(s)[s[j]]
  {
    assert s[..j + 1] == s[..j] + [s[j]];
    assert s == s[..j + 1] + s[j + 1..];
  }

  /** A node whose in-degree drops to 0, all of whose predecessors were enqueued before,
      is enqueued next with the next rank. */
  lemma EnqueueReached(edges: seq<Edge>, E: set<Id>, inDegree: map<Id, int>, enq: seq<Id>,
                       rank: map<Id, nat>, v: Id)
    requires Enqueued(edges, inDegree, enq, rank)
    requires v in Nodes(edges) && Get(inDegree, v) == 1
    requires E <= Elems(enq)
    requires forall i :: 0 <= i < |edges| && edges[i].1 == v ==> edges[i].0 in E
    ensures Enqueued(edges, inDegree[v := 0], enq + [v], rank[v := |enq|])
  {
    assert v !in enq;
    var enq' := enq + [v];
    assert Distinct(enq') by {
      forall i, j | 0 <= i < j < |enq'| ensures enq'[i] != enq'[j] {
        if j == |enq| {
          assert enq'[i] == enq[i];
        }
      }
    }
    assert Elems(enq') == Elems(enq) + {v};
  }

  /** A node whose in-degree stays positive stays unqueued. */
  lemma KeepEnqueued(edges: seq<Edge>, inDegree: map<Id, int>, enq: seq<Id>, rank: map<Id, nat>, v: Id)
    requires Enqueued(edges, inDegree, enq, rank)
    requires Get(inDegree, v) > 1
    ensures Enqueued(edges, inDegree[v := Get(inDegree, v) - 1], enq, rank)
  {
  }

  /** The state right after the queue is seeded meets the drain loop's invariants. */
  lemma InitialQueueFacts(edges: seq<Edge>, order: seq<Id>, queue: seq<Id>, rank: map<Id, nat>)
    requires Elems(order) == Sources(edges)
    requires forall x :: x in queue <==> x in order && InDeg(edges, |edges|, x) == 0
    requires rank.Keys == Elems(queue)
    requires forall y :: y in rank ==> InDeg(edges, |edges|, y) == 0
    ensures Elems(queue) <= Nodes(edges)
    ensures forall x :: x in Nodes(edges) ==> (x in queue <==> InDeg(edges, |edges|, x) == 0)
    ensures Ranked(edges, rank)
  {
    forall x | x in Nodes(edges) && InDeg(edges, |edges|, x) == 0 ensures x in order {
      InDegZero(edges, |edges|, x);
    }
    forall i | 0 <= i < |edges| ensures edges[i].1 !in rank {
      assert edges[i].1 in Targets(edges);
      InDegZero(edges, |edges|, edges[i].1);
    }
  }

  /** Before the successors of a dequeued `u` are visited: `u` is a source or has none,
      and the edges still to be removed into each `v` fit in its in-degree. */
  lemma DequeueFacts(edges: seq<Edge>, D: set<Id>, u: Id)
    requires u !in D
    ensures forall v :: Count(edges, |edges|, v, D) + multiset(Succs(edges, |edges|, u))[v] <= InDeg(edges, |edges|, v)
    ensures forall v :: Count(edges, |edges|, v, D) + multiset(Succs(edges, |edges|, u))[v] == Count(edges, |edges|, v, D + {u})
  {
    forall v ensures Count(edges, |edges|, v, D) + multiset(Succs(edges, |edges|, u))[v] == Count(edges, |edges|, v, D + {u}) {
      CountAddSource(edges, |edges|, v, D, u);
    }
    forall v ensures Count(edges, |edges|, v, D + {u}) <= InDeg(edges, |edges|, v) {
      CountBound(edges, |edges|, v, D + {u});
    }
  }

  /** After the queue has drained, a node with positive in-degree lies on a cycle. */
  lemma DrainedPositiveHasCycle(edges: seq<Edge>, inDegree: map<Id, int>, done: seq<Id>, u: Id)
    requires forall v :: Get(inDegree, v) == InDeg(edges, |edges|, v) - Count(edges, |edges|, v, Elems(done))
    requires forall x :: x in Nodes(edges) ==> (x in done <==> Get(inDegree, x) == 0)
    requires Get(inDegree, u) > 0
    ensures HasCycle(edges)
  {
    var P := set x | x in Nodes(edges) && Get(inDegree, x) > 0;
    InDegZero(edges, |edges|, u);
    assert u in P;
    forall y | y in P ensures HasPredecessorIn(edges, y, P) {
      var i := MissingSource(edges, y, Elems(done));
      var x := edges[i].0;
      assert x in Nodes(edges) && x !in done;
      CountBound(edges, |edges|, x, Elems(done));
      assert x in P;
    }
    PredecessorClosedHasCycle(edges, P);
  }

  /** After the queue has drained with no adjacency key of positive in-degree, every node
      was dequeued and the enqueue ranks order every edge, so there is no cycle. */
  lemma DrainedZeroIsAcyclic(edges: seq<Edge>, order: seq<Id>, inDegree: map<Id, int>,
                             done: seq<Id>, rank: map<Id, nat>)
    requires Sources(edges) <= Elems(order)
    requires forall m :: 0 <= m < |order| ==> Get(inDegree, order[m]) <= 0
    requires forall v :: Get(inDegree, v) == InDeg(edges, |edges|, v) - Count(edges, |edges|, v, Elems(done))
    requires forall x :: x in Nodes(edges) ==> (x in done <==> Get(inDegree, x) == 0)
    requires rank.Keys == Elems(done)
    requires Ranked(edges, rank)
    ensures Nodes(edges) <= Elems(done)
    ensures !HasCycle(edges)
  {
    forall x | x in Nodes(edges) ensures x in done {
      if Get(inDegree, x) != 0 {
        CountBound(edges, |edges|, x, Elems(done));
        var i := MissingSource(edges, x, Elems(done));
        var y := edges[i].0;
        assert y in Sources(edges) && y !in done;
        CountBound(edges, |edges|, y, Elems(done));
        assert false;
      }
    }
    forall i | 0 <= i < |edges|
      ensures edges[i].0 in rank && edges[i].1 in rank && rank[edges[i].0] < rank[edges[i].1]
    {
      assert edges[i].1 in Targets(edges);
    }
    RankedIsAcyclic(edges, rank);
  }

  /** The triangle A->B->C->A is a cycle, so is_acyclic reports false for it. */
  lemma TriangleHasCycle()
    ensures HasCycle([('A', 'B'), ('B', 'C'), ('C', 'A')])
  {
    var edges := [('A', 'B'), ('B', 'C'), ('C', 'A')];
    var p := ['A', 'B', 'C', 'A'];
    assert (p[0], p[1]) == edges[0] && (p[1], p[2]) == edges[1] && (p[2], p[3]) == edges[2];
    assert IsCycle(edges, p);
  }

  /** A self-loop is a cycle. */
  lemma SelfLoopHasCycle(u: Id)
    ensures HasCycle([(u, u)])
  {
    assert IsCycle([(u, u)], [u, u]);
  }

  /** The chain A->B->C has no cycle, so is_acyclic reports true for it. */
  lemma ChainIsAcyclic()
    ensures !HasCycle([('A', 'B'), ('B', 'C')])
  {
    RankedIsAcyclic([('A', 'B'), ('B', 'C')], map['A' := 0, 'B' := 1, 'C' := 2]);
  }

  /** The empty edge list has no cycle. */
  lemma EmptyIsAcyclic()
    ensures !HasCycle([])
  {
    RankedIsAcyclic([], map[]);
  }
}
