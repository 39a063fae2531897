/** The directed task graph given as an edge list, the counts Kahn's reduction keeps,
    and what it means for the edge list to contain a cycle. */
module Graph {
  import opened Dicts

  /** (predecessor, successor): the predecessor must finish before the successor starts. */
  type Edge = (Id, Id)

  function Sources(edges: seq<Edge>): set<Id> {
    set i | 0 <= i < |edges| :: edges[i].0
  }

  function Targets(edges: seq<Edge>): set<Id> {
    set i | 0 <= i < |edges| :: edges[i].1
  }

  /** Every identifier that is an endpoint of some edge. */
  function Nodes(edges: seq<Edge>): set<Id> {
    Sources(edges) + Targets(edges)
  }

  /** The successors of `u` among the first `n` edges, in edge order: the list `graph[u]`
      that is_acyclic builds. */
  function Succs(edges: seq<Edge>, n: nat, u: Id): seq<Id>
    requires n <= |edges|
  {
    if n == 0 then []
    else Succs(edges, n - 1, u) + (if edges[n - 1].0 == u then [edges[n - 1].1] else [])
  }

  /** The sources of the first `n` edges, each once, in the order they first appear: the
      key order of the successor map that is_acyclic builds. */
  function FirstSources(edges: seq<Edge>, n: nat): seq<Id>
    requires n <= |edges|
  {
    if n == 0 then []
    else
      var s := FirstSources(edges, n - 1);
      if edges[n - 1].0 in s then s else s + [edges[n - 1].0]
  }

  /** The first-seen order lists every source of the first `n` edges exactly once, and
      each one appears no later than the edge that introduces it. */
  lemma {:induction false} FirstSourcesShape(edges: seq<Edge>, n: nat)
    requires n <= |edges|
    ensures Distinct(FirstSources(edges, n))
    ensures Elems(FirstSources(edges, n)) == set k | 0 <= k < n :: edges[k].0
    ensures |FirstSources(edges, n)| <= n
  {
    if n > 0 {
      FirstSourcesShape(edges, n - 1);
      var s := FirstSources(edges, n - 1);
      var u := edges[n - 1].0;
      assert (set k | 0 <= k < n :: edges[k].0) == (set k | 0 <= k < n - 1 :: edges[k].0) + {u};
      if u !in s {
        DistinctAppend(s, u);
      }
    }
  }

  /** A node not yet seen as a source has no successors so far. */
  lemma NewSourceHasNoSuccessors(edges: seq<Edge>, n: nat, u: Id)
    requires n <= |edges| && u !in FirstSources(edges, n)
    ensures Succs(edges, n, u) == []
  {
    FirstSourcesShape(edges, n);
    assert forall k :: 0 <= k < n ==> edges[k].0 != u by {
      forall k | 0 <= k < n ensures edges[k].0 != u {
        assert edges[k].0 in Elems(FirstSources(edges, n));
      }
    }
    SuccsOnlyTargets(edges, n, u);
  }

  /** The number of edges among the first `n` that end in `v`: the count `in_degree[v]`
      that is_acyclic builds. */
  function InDeg(edges: seq<Edge>, n: nat, v: Id): nat
    requires n <= |edges|
  {
    if n == 0 then 0
    else InDeg(edges, n - 1, v) + (if edges[n - 1].1 == v then 1 else 0)
  }

  /** The number of edges among the first `n` that end in `v` and start in `S`. */
  function Count(edges: seq<Edge>, n: nat, v: Id, S: set<Id>): nat
    requires n <= |edges|
  {
    if n == 0 then 0
    else Count(edges, n - 1, v, S) + (if edges[n - 1].1 == v && edges[n - 1].0 in S then 1 else 0)
  }

  /** `p` is a closed walk of at least one edge (a self-loop is the walk [u, u]). */
  ghost predicate IsCycle(edges: seq<Edge>, p: seq<Id>) {
    && |p| >= 2
    && p[0] == p[|p| - 1]
    && forall k :: 0 <= k < |p| - 1 ==> (p[k], p[k + 1]) in edges
  }

  ghost predicate HasCycle(edges: seq<Edge>) {
    exists p :: IsCycle(edges, p)
  }

  lemma {:induction false} SuccsOnlyTargets(edges: seq<Edge>, n: nat, u: Id)
    requires n <= |edges|
    ensures forall x :: x in Succs(edges, n, u) ==> exists i :: 0 <= i < n && edges[i] == (u, x)
    ensures (forall i :: 0 <= i < n ==> edges[i].0 != u) ==> Succs(edges, n, u) == []
  {
    if n > 0 {
      SuccsOnlyTargets(edges, n - 1, u);
    }
  }

  lemma {:induction false} CountEmpty(edges: seq<Edge>, n: nat, v: Id)
    requires n <= |edges|
    ensures Count(edges, n, v, {}) == 0
  {
    if n > 0 {
      CountEmpty(edges, n - 1, v);
    }
  }

  /** Admitting one more source `u` adds exactly its successor-list occurrences of `v`. */
  lemma {:induction false} CountAddSource(edges: seq<Edge>, n: nat, v: Id, S: set<Id>, u: Id)
    requires n <= |edges| && u !in S
    ensures Count(edges, n, v, S + {u}) == Count(edges, n, v, S) + multiset(Succs(edges, n, u))[v]
  {
    if n > 0 {
      CountAddSource(edges, n - 1, v, S, u);
      var prev := Succs(edges, n - 1, u);
      if edges[n - 1].0 == u {
        assert Succs(edges, n, u) == prev + [edges[n - 1].1];
        assert multiset(prev + [edges[n - 1].1]) == multiset(prev) + multiset{edges[n - 1].1};
      } else {
        assert Succs(edges, n, u) == prev;
      }
    }
  }

  /** Counting restricted sources never exceeds the in-degree; it reaches it exactly when
      every edge into `v` comes from `S`. */
  lemma {:induction false} CountBound(edges: seq<Edge>, n: nat, v: Id, S: set<Id>)
    requires n <= |edges|
    ensures Count(edges, n, v, S) <= InDeg(edges, n, v)
    ensures Count(edges, n, v, S) == InDeg(edges, n, v) <==>
            forall i :: 0 <= i < n && edges[i].1 == v ==> edges[i].0 in S
  {
    if n > 0 {
      CountBound(edges, n - 1, v, S);
    }
  }

  /** An edge into `v` from outside `S`, when the count falls short of the in-degree. */
  lemma MissingSource(edges: seq<Edge>, v: Id, S: set<Id>) returns (i: nat)
    requires Count(edges, |edges|, v, S) < InDeg(edges, |edges|, v)
    ensures i < |edges| && edges[i].1 == v && edges[i].0 !in S
  {
    CountBound(edges, |edges|, v, S);
    i :| 0 <= i < |edges| && edges[i].1 == v && edges[i].0 !in S;
  }

  /** A node has in-degree zero exactly when no edge ends in it. */
  lemma {:induction false} InDegZero(edges: seq<Edge>, n: nat, v: Id)
    requires n <= |edges|
    ensures InDeg(edges, n, v) == 0 <==> forall i :: 0 <= i < n ==> edges[i].1 != v
  {
    if n > 0 {
      InDegZero(edges, n - 1, v);
    }
  }

  /** A ranking that every edge strictly increases rules out every cycle. */
  lemma RankedIsAcyclic(edges: seq<Edge>, rank: map<Id, nat>)
    requires forall i :: 0 <= i < |edges| ==>
               edges[i].0 in rank && edges[i].1 in rank && rank[edges[i].0] < rank[edges[i].1]
    ensures !HasCycle(edges)
  {
    if p :| IsCycle(edges, p) {
      RankIncreasesAlong(edges, rank, p, |p| - 1);
    }
  }

  lemma {:induction false} RankIncreasesAlong(edges: seq<Edge>, rank: map<Id, nat>, p: seq<Id>, k: nat)
    requires forall i :: 0 <= i < |edges| ==>
               edges[i].0 in rank && edges[i].1 in rank && rank[edges[i].0] < rank[edges[i].1]
    requires forall m :: 0 <= m < |p| - 1 ==> (p[m], p[m + 1]) in edges
    requires 1 <= k < |p|
    ensures p[0] in rank && p[k] in rank && rank[p[0]] + k <= rank[p[k]]
  {
    assert (p[k - 1], p[k]) in edges;
    var i :| 0 <= i < |edges| && edges[i] == (p[k - 1], p[k]);
    if k > 1 {
      RankIncreasesAlong(edges, rank, p, k - 1);
    }
  }

  /** Some edge into `y` starts in `P`. */
  ghost predicate HasPredecessorIn(edges: seq<Edge>, y: Id, P: set<Id>) {
    exists i :: 0 <= i < |edges| && edges[i].1 == y && edges[i].0 in P
  }

  ghost predicate PredecessorClosed(edges: seq<Edge>, P: set<Id>) {
    forall y :: y in P ==> HasPredecessorIn(edges, y, P)
  }

  /** A walk of `n` steps backwards through `P`, starting at `x`. */
  lemma {:induction false} BackwardWalk(edges: seq<Edge>, P: set<Id>, x: Id, n: nat) returns (w: seq<Id>)
    requires PredecessorClosed(edges, P)
    requires x in P
    ensures |w| == n + 1 && w[0] == x
    ensures forall k :: 0 <= k < |w| ==> w[k] in P
    ensures forall k :: 0 <= k < n ==> (w[k + 1], w[k]) in edges
    decreases n
  {
    if n == 0 {
      w := [x];
    } else {
      assert HasPredecessorIn(edges, x, P);
      var i :| 0 <= i < |edges| && edges[i].1 == x && edges[i].0 in P;
      var rest := BackwardWalk(edges, P, edges[i].0, n - 1);
      w := [x] + rest;
      assert forall k :: 1 <= k < |w| ==> w[k] == rest[k - 1];
      forall k | 0 <= k < n ensures (w[k + 1], w[k]) in edges {
        if k == 0 {
          assert edges[i] == (w[1], w[0]);
        } else {
          assert (w[k + 1], w[k]) == (rest[k], rest[k - 1]);
        }
      }
    }
  }

  /** A non-empty set of nodes in which every node has a predecessor inside the set
      contains a cycle. */
  lemma PredecessorClosedHasCycle(edges: seq<Edge>, P: set<Id>)
    requires P != {}
    requires PredecessorClosed(edges, P)
    ensures HasCycle(edges)
  {
    var x :| x in P;
    var w := BackwardWalk(edges, P, x, |P|);
    var i, j := Pigeonhole(w, P);
    ReversedSegmentIsCycle(edges, w, i, j);
  }

  /** The repeated stretch `w[i..j]` of a backward walk, read forwards, is a cycle. */
  lemma ReversedSegmentIsCycle(edges: seq<Edge>, w: seq<Id>, i: nat, j: nat)
    requires i < j < |w| && w[i] == w[j]
    requires forall k :: 0 <= k < |w| - 1 ==> (w[k + 1], w[k]) in edges
    ensures HasCycle(edges)
  {
    var p := seq(j - i + 1, k requires 0 <= k <= j - i => w[j - k]);
    forall k | 0 <= k < |p| - 1 ensures (p[k], p[k + 1]) in edges {
      var m := j - k - 1;
      assert p[k] == w[m + 1] && p[k + 1] == w[m];
    }
    assert IsCycle(edges, p);
  }
}
