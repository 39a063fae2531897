/** get_adj_list: the undirected view of the task graph, keyed in ascending identifier
    order, that the scheduling passes walk. */
module Adjacency {
  import opened Dicts
  import opened Graph

  /** The neighbours of `x` recorded by the first `n` edges, in the order get_adj_list
      appends them: each edge (u, v) appends v to u's list and then u to v's list, so a
      self-loop lists its node twice. */
  function Adj(edges: seq<Edge>, n: nat, x: Id): seq<Id>
    requires n <= |edges|
  {
    if n == 0 then []
    else
      Adj(edges, n - 1, x)
        + (if edges[n - 1].0 == x then [edges[n - 1].1] else [])
        + (if edges[n - 1].1 == x then [edges[n - 1].0] else [])
  }

  /** The endpoints of the first `n` edges. */
  function Endpoints(edges: seq<Edge>, n: nat): set<Id>
    requires n <= |edges|
  {
    (set k | 0 <= k < n :: edges[k].0) + (set k | 0 <= k < n :: edges[k].1)
  }

  /** The shape the scheduling passes rely on: keys in strictly ascending order, the key
      list matching the map, and every neighbour itself a key. */
  predicate WellFormed(adj: Dict<seq<Id>>) {
    && StrictlySorted(adj.keys)
    && Elems(adj.keys) == adj.items.Keys
    && forall k, i :: k in adj.items && 0 <= i < |adj.items[k]| ==> adj.items[k][i] in adj.items
  }

  /** Every adjacency is recorded at both ends. */
  predicate Symmetric(adj: Dict<seq<Id>>) {
    forall k, i :: k in adj.items && 0 <= i < |adj.items[k]| ==>
      adj.items[k][i] in adj.items && k in adj.items[adj.items[k][i]]
  }

  /** Builds the undirected adjacency lists of the edge list, keyed by every endpoint in
      ascending order. */
  method GetAdjList(edges: seq<Edge>) returns (adj: Dict<seq<Id>>)
    ensures StrictlySorted(adj.keys)
    ensures Elems(adj.keys) == adj.items.Keys == Nodes(edges)
    ensures forall x :: x in adj.items ==> adj.items[x] == Adj(edges, |edges|, x)
  {
    var order: seq<Id> := [];
    var graph: map<Id, seq<Id>> := map[];
    for i := 0 to |edges|
      invariant Recorded(edges, i, order, graph)
    {
      order, graph := RecordEdge(edges, i, order, graph);
    }
    EndpointsAll(edges);
    var keys := SortIds(order);
    adj := Dict(keys, graph);
  }

  /** The insertion-ordered map after the first `i` edges were recorded. */
  ghost predicate Recorded(edges: seq<Edge>, i: nat, order: seq<Id>, graph: map<Id, seq<Id>>) {
    && i <= |edges|
    && Distinct(order) && Elems(order) == graph.Keys
    && graph.Keys == Endpoints(edges, i)
    && forall x :: x in graph ==> graph[x] == Adj(edges, i, x)
  }

  /** One iteration of get_adj_list's loop: both endpoints get a list if they had none,
      then each is appended to the other's list. */
  method RecordEdge(edges: seq<Edge>, i: nat, order0: seq<Id>, graph0: map<Id, seq<Id>>)
    returns (order: seq<Id>, graph: map<Id, seq<Id>>)
    requires i < |edges| && Recorded(edges, i, order0, graph0)
    ensures Distinct(order)
    ensures Elems(order) == graph.Keys
    ensures graph.Keys == Endpoints(edges, i + 1)
    ensures forall x :: x in graph ==> graph[x] == Adj(edges, i + 1, x)
  {
    var (u, v) := edges[i];
    order, graph := AddKey(order0, graph0, u);
    order, graph := AddKey(order, graph, v);
    ghost var lists := graph;
    ListsBeforeAppend(edges, i, graph0, lists);
    graph := graph[u := graph[u] + [v]];
    graph := graph[v := graph[v] + [u]];
    assert graph.Keys == lists.Keys;
    AppendBoth(edges, i, lists, graph);
  }

  /** Gives `x` an empty list unless it already has one; a new key goes last in key order. */
  method AddKey(order0: seq<Id>, graph0: map<Id, seq<Id>>, x: Id) returns (order: seq<Id>, graph: map<Id, seq<Id>>)
    requires Distinct(order0) && Elems(order0) == graph0.Keys
    ensures Distinct(order) && Elems(order) == graph.Keys == graph0.Keys + {x}
    ensures graph[x] == if x in graph0 then graph0[x] else []
    ensures forall y :: y in graph0 ==> graph[y] == graph0[y]
  {
    order, graph := order0, graph0;
    if x !in graph {
      graph := graph[x := []];
      order := order + [x];
    }
  }

  /** Once both endpoints of edge `i` have a list, the keys are the endpoints of the first
      `i + 1` edges and each list still holds the neighbours from the first `i` edges. */
  lemma ListsBeforeAppend(edges: seq<Edge>, i: nat, graph0: map<Id, seq<Id>>, lists: map<Id, seq<Id>>)
    requires i < |edges|
    requires graph0.Keys == Endpoints(edges, i)
    requires forall x :: x in graph0 ==> graph0[x] == Adj(edges, i, x)
    requires lists.Keys == graph0.Keys + {edges[i].0} + {edges[i].1}
    requires forall y :: y in graph0 ==> lists[y] == graph0[y]
    requires edges[i].0 !in graph0 ==> lists[edges[i].0] == []
    requires edges[i].1 !in graph0 ==> lists[edges[i].1] == []
    ensures lists.Keys == Endpoints(edges, i + 1)
    ensures forall x :: x in lists ==> lists[x] == Adj(edges, i, x)
  {
    var (u, v) := edges[i];
    EndpointsStep(edges, i);
    if u !in graph0 {
      AdjOffEndpoints(edges, i, u);
    }
    if v !in graph0 {
      AdjOffEndpoints(edges, i, v);
    }
  }

  /** Appending v to u's list and then u to v's list extends every list by the neighbours
      the edge (u, v) contributes. */
  lemma AppendBoth(edges: seq<Edge>, i: nat, lists: map<Id, seq<Id>>, graph: map<Id, seq<Id>>)
    requires i < |edges| && edges[i].0 in lists && edges[i].1 in lists
    requires forall x :: x in lists ==> lists[x] == Adj(edges, i, x)
    requires var (u, v) := edges[i];
             var once := lists[u := lists[u] + [v]];
             graph == once[v := once[v] + [u]]
    ensures forall x :: x in graph ==> graph[x] == Adj(edges, i + 1, x)
  {
    var (u, v) := edges[i];
    forall x | x in graph ensures graph[x] == Adj(edges, i + 1, x) {
      assert Adj(edges, i + 1, x) ==
        lists[x] + (if u == x then [v] else []) + (if v == x then [u] else []);
      if x == u && x == v {
        assert graph[x] == lists[x] + [v] + [u];
      } else if x == u {
        assert graph[x] == lists[x] + [v];
      } else if x == v {
        assert graph[x] == lists[x] + [u];
      }
    }
  }

  /** sorted(): the identifiers of `s` in ascending order (by insertion). */
  method SortIds(s: seq<Id>) returns (t: seq<Id>)
    requires Distinct(s)
    ensures StrictlySorted(t) && multiset(t) == multiset(s)
    ensures Elems(t) == Elems(s)
  {
    t := [];
    for i := 0 to |s|
      invariant StrictlySorted(t) && multiset(t) == multiset(s[..i])
    {
      PrefixStep(s, i);
      DistinctNotInPrefix(s, i);
      assert s[i] !in multiset(s[..i]);
      t := InsertSorted(t, s[i]);
    }
    assert s[..|s|] == s;
    assert forall x :: x in t <==> x in multiset(t);
    assert forall x :: x in s <==> x in multiset(s);
  }

  /** Inserts `x` into a strictly ascending sequence that does not hold it yet. */
  method InsertSorted(t: seq<Id>, x: Id) returns (r: seq<Id>)
    requires StrictlySorted(t) && x !in t
    ensures StrictlySorted(r) && multiset(r) == multiset(t) + multiset{x}
  {
    var i := 0;
    while i < |t| && t[i] < x
      invariant 0 <= i <= |t|
      invariant forall k :: 0 <= k < i ==> t[k] < x
    {
      i := i + 1;
    }
    forall k | i <= k < |t| ensures x < t[k] {
      assert t[i] != x;
    }
    r := t[..i] + [x] + t[i..];
    SortedInsertAt(t, i, x);
    assert t == t[..i] + t[i..];
  }

  lemma SortedInsertAt(t: seq<Id>, i: nat, x: Id)
    requires StrictlySorted(t) && i <= |t|
    requires forall k :: 0 <= k < i ==> t[k] < x
    requires forall k :: i <= k < |t| ==> x < t[k]
    ensures StrictlySorted(t[..i] + [x] + t[i..])
  {
    var r := t[..i] + [x] + t[i..];
    assert forall k :: 0 <= k < |r| ==> r[k] == if k < i then t[k] else if k == i then x else t[k - 1];
  }

  lemma EndpointsStep(edges: seq<Edge>, i: nat)
    requires i < |edges|
    ensures Endpoints(edges, i + 1) == Endpoints(edges, i) + {edges[i].0, edges[i].1}
  {
    assert (set k | 0 <= k < i + 1 :: edges[k].0) == (set k | 0 <= k < i :: edges[k].0) + {edges[i].0};
    assert (set k | 0 <= k < i + 1 :: edges[k].1) == (set k | 0 <= k < i :: edges[k].1) + {edges[i].1};
  }

  lemma EndpointsAll(edges: seq<Edge>)
    ensures Endpoints(edges, |edges|) == Nodes(edges)
  {
  }

  /** A node no edge touches has no neighbours. */
  lemma {:induction false} AdjOffEndpoints(edges: seq<Edge>, n: nat, x: Id)
    requires n <= |edges| && x !in Endpoints(edges, n)
    ensures Adj(edges, n, x) == []
  {
    if n > 0 {
      assert edges[n - 1].0 in Endpoints(edges, n) && edges[n - 1].1 in Endpoints(edges, n);
      assert Endpoints(edges, n - 1) <= Endpoints(edges, n);
      AdjOffEndpoints(edges, n - 1, x);
    }
  }

  /** `y` is a neighbour of `x` exactly when some edge joins them, in either direction. */
  lemma {:induction false} AdjMember(edges: seq<Edge>, n: nat, x: Id, y: Id)
    requires n <= |edges|
    ensures y in Adj(edges, n, x) <==> exists i :: 0 <= i < n && (edges[i] == (x, y) || edges[i] == (y, x))
  {
    if n > 0 {
      AdjMember(edges, n - 1, x, y);
      var (u, v) := edges[n - 1];
      var tail := (if u == x then [v] else []) + (if v == x then [u] else []);
      assert Adj(edges, n, x) == Adj(edges, n - 1, x) + tail;
      assert y in tail <==> edges[n - 1] == (x, y) || edges[n - 1] == (y, x);
    }
  }

  /** Each list is as long as the number of edge ends at its node: one entry per edge
      leaving it and one per edge entering it. */
  lemma {:induction false} AdjLength(edges: seq<Edge>, n: nat, x: Id)
    requires n <= |edges|
    ensures |Adj(edges, n, x)| == |Succs(edges, n, x)| + InDeg(edges, n, x)
  {
    if n > 0 {
      AdjLength(edges, n - 1, x);
    }
  }

  /** Adjacency is recorded at both ends. */
  lemma AdjSymmetric(edges: seq<Edge>, x: Id, y: Id)
    ensures y in Adj(edges, |edges|, x) <==> x in Adj(edges, |edges|, y)
  {
    AdjMember(edges, |edges|, x, y);
    AdjMember(edges, |edges|, y, x);
  }

  /** The map get_adj_list returns has the shape the scheduling passes rely on, and is
      symmetric. */
  lemma AdjListShape(edges: seq<Edge>, adj: Dict<seq<Id>>)
    requires StrictlySorted(adj.keys)
    requires Elems(adj.keys) == adj.items.Keys == Nodes(edges)
    requires forall x :: x in adj.items ==> adj.items[x] == Adj(edges, |edges|, x)
    ensures WellFormed(adj) && Symmetric(adj)
  {
    forall k, i | k in adj.items && 0 <= i < |adj.items[k]|
      ensures adj.items[k][i] in adj.items && k in adj.items[adj.items[k][i]]
    {
      NeighbourIsKey(edges, adj, k, adj.items[k][i]);
    }
  }

  lemma NeighbourIsKey(edges: seq<Edge>, adj: Dict<seq<Id>>, k: Id, n: Id)
    requires adj.items.Keys == Nodes(edges)
    requires forall x :: x in adj.items ==> adj.items[x] == Adj(edges, |edges|, x)
    requires k in adj.items && n in adj.items[k]
    ensures n in adj.items && k in adj.items[n]
  {
    NeighbourIsNode(edges, k, n);
  }

  lemma NeighbourIsNode(edges: seq<Edge>, k: Id, n: Id)
    requires n in Adj(edges, |edges|, k)
    ensures n in Nodes(edges) && k in Adj(edges, |edges|, n)
  {
    AdjMember(edges, |edges|, k, n);
    var i :| 0 <= i < |edges| && (edges[i] == (k, n) || edges[i] == (n, k));
    assert n in Nodes(edges);
    AdjSymmetric(edges, k, n);
  }

  /** A task that no edge mentions gets no adjacency entry; one that an edge mentions
      gets a non-empty list. */
  lemma AdjKeysAreEndpoints(edges: seq<Edge>, x: Id)
    ensures x in Nodes(edges) <==> Adj(edges, |edges|, x) != []
  {
    if x in Nodes(edges) {
      if x in Sources(edges) {
        var i :| 0 <= i < |edges| && edges[i].0 == x;
        AdjMember(edges, |edges|, x, edges[i].1);
      } else {
        var i :| 0 <= i < |edges| && edges[i].1 == x;
        AdjMember(edges, |edges|, x, edges[i].0);
      }
    } else {
      EndpointsAll(edges);
      AdjOffEndpoints(edges, |edges|, x);
    }
  }
}
