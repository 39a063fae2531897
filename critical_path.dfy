/** get_next_node, get_critical_path and get_durations: the greedy walk from the first to
    the last task of the duration map, always moving to the longest later neighbour. */
module CriticalPath {
  import opened Dicts
  import opened Adjacency
  import opened Schedule

  /** Every neighbour in `nbrs` with a larger identifier than `node` has a duration: the
      lookups `nodes[next]` that get_next_node makes for `node`. */
  predicate LaterDurations(nbrs: seq<Id>, node: Id, dur: map<Id, int>) {
    forall i :: 0 <= i < |nbrs| && node < nbrs[i] ==> nbrs[i] in dur
  }

  /** The neighbour at index `c` has a larger identifier than `node` and a positive duration,
      no larger neighbour among the first `j` lasts longer, and every larger neighbour before
      `c` is strictly shorter. */
  ghost predicate ChosenUpTo(nbrs: seq<Id>, j: nat, node: Id, dur: map<Id, int>, c: nat)
    requires c < |nbrs| && j <= |nbrs|
  {
    && node < nbrs[c] && nbrs[c] in dur && dur[nbrs[c]] > 0
    && (forall i :: 0 <= i < j && node < nbrs[i] ==> nbrs[i] in dur && dur[nbrs[i]] <= dur[nbrs[c]])
    && (forall i :: 0 <= i < c && node < nbrs[i] ==> nbrs[i] in dur && dur[nbrs[i]] < dur[nbrs[c]])
  }

  /** get_next_node's answer for `node` with neighbour list `nbrs`: the first of the longest
      larger neighbours when one has a positive duration, and None otherwise. */
  ghost predicate IsGreedyChoice(nbrs: seq<Id>, node: Id, dur: map<Id, int>, next: Option<Id>) {
    match next
    case None =>
      forall i :: 0 <= i < |nbrs| && node < nbrs[i] ==> nbrs[i] in dur && dur[nbrs[i]] <= 0
    case Some(m) =>
      exists c :: 0 <= c < |nbrs| && nbrs[c] == m && ChosenUpTo(nbrs, |nbrs|, node, dur, c)
  }

  /** The neighbour of `node` with a larger identifier and the largest positive duration,
      the first one seen on ties; None when no larger neighbour has a positive duration. */
  method GetNextNode(node: Id, adj: Dict<seq<Id>>, dur: map<Id, int>) returns (next: Option<Id>)
    requires node in adj.items
    requires LaterDurations(adj.items[node], node, dur)
    ensures IsGreedyChoice(adj.items[node], node, dur, next)
  {
    var nbrs := adj.items[node];
    var weight := 0;
    next := None;
    ghost var c: nat := 0;
    for j := 0 to |nbrs|
      invariant next.None? ==> weight == 0
      invariant next.None? ==> forall i :: 0 <= i < j && node < nbrs[i] ==> dur[nbrs[i]] <= 0
      invariant next.Some? ==> c < j && nbrs[c] == next.value && nbrs[c] in dur && weight == dur[nbrs[c]]
      invariant next.Some? ==> ChosenUpTo(nbrs, j, node, dur, c)
    {
      var n := nbrs[j];
      if node < n {
        if dur[n] > weight {
          weight := dur[n];
          next := Some(n);
          c := j;
        }
      }
    }
    if next.Some? {
      assert nbrs[c] == next.value && ChosenUpTo(nbrs, |nbrs|, node, dur, c);
    }
  }

  /** There is only one greedy choice. */
  lemma GreedyChoiceUnique(nbrs: seq<Id>, node: Id, dur: map<Id, int>, a: Option<Id>, b: Option<Id>)
    requires IsGreedyChoice(nbrs, node, dur, a) && IsGreedyChoice(nbrs, node, dur, b)
    ensures a == b
  {
  }

  /** `path` starts at a key and each later task is the greedy choice at the one before. */
  ghost predicate GreedyWalk(adj: Dict<seq<Id>>, dur: map<Id, int>, path: seq<Id>) {
    && |path| >= 1
    && (forall i :: 0 <= i < |path| ==> path[i] in adj.items)
    && forall i :: 0 <= i < |path| - 1 ==> IsGreedyChoice(adj.items[path[i]], path[i], dur, Some(path[i + 1]))
  }

  /** Why get_critical_path cannot return a path: the duration map is empty (the first key
      does not exist), its first key has no adjacency list, the walk reaches a task with a
      later neighbour that has no duration (the lookup `nodes[next]` fails), or the walk
      reaches a task with no later neighbour of positive duration before the last key
      (Python appends None and then fails looking it up); `walked` is the walk up to that
      task. */
  datatype WalkError = NoTasks | NotInGraph(node: Id) | MissingDuration(walked: seq<Id>) | DeadEnd(walked: seq<Id>)

  /** Walks greedily from the first key of the duration map until it reaches its last key
      (taking at least one step, even when the two coincide). */
  method GetCriticalPath(adj: Dict<seq<Id>>, nodes: Dict<int>) returns (r: Result<seq<Id>, WalkError>)
    requires WellFormed(adj)
    ensures r == Failure(NoTasks) <==> nodes.keys == []
    ensures r.Failure? && r.error.NotInGraph? <==> nodes.keys != [] && nodes.keys[0] !in adj.items
    ensures r.Failure? && r.error.NotInGraph? ==> r.error.node == nodes.keys[0]
    ensures r.Success? ==>
              var path, first, last := r.value, nodes.keys[0], nodes.keys[|nodes.keys| - 1];
              && GreedyWalk(adj, nodes.items, path)
              && |path| >= 2 && path[0] == first && path[|path| - 1] == last
              && (forall i :: 1 <= i < |path| - 1 ==> path[i] != last)
    ensures r.Failure? && r.error.MissingDuration? ==>
              var path, first, last := r.error.walked, nodes.keys[0], nodes.keys[|nodes.keys| - 1];
              && GreedyWalk(adj, nodes.items, path)
              && path[0] == first
              && !LaterDurations(adj.items[path[|path| - 1]], path[|path| - 1], nodes.items)
              && (forall i :: 1 <= i < |path| ==> path[i] != last)
    ensures r.Failure? && r.error.DeadEnd? ==>
              var path, first, last := r.error.walked, nodes.keys[0], nodes.keys[|nodes.keys| - 1];
              && GreedyWalk(adj, nodes.items, path)
              && path[0] == first
              && IsGreedyChoice(adj.items[path[|path| - 1]], path[|path| - 1], nodes.items, None)
              && (forall i :: 1 <= i < |path| ==> path[i] != last)
  {
    if nodes.keys == [] {
      return Failure(NoTasks);
    }
    var first := nodes.keys[0];
    var last := nodes.keys[|nodes.keys| - 1];
    if first !in adj.items {
      return Failure(NotInGraph(first));
    }
    var path := [first];
    var act := first;
    var next: Option<Id> := None;
    while next != Some(last)
      invariant GreedyWalk(adj, nodes.items, path) && path[0] == first && act == path[|path| - 1]
      invariant StrictlySorted(path) && |path| <= |adj.items.Keys|
      invariant |path| == 1 <==> next.None?
      invariant next.Some? ==> next.value == act
      invariant forall i :: 1 <= i < |path| - 1 ==> path[i] != last
      decreases |adj.items.Keys| - |path|
    {
      if !LaterDurations(adj.items[act], act, nodes.items) {
        return Failure(MissingDuration(path));
      }
      next := GetNextNode(act, adj, nodes.items);
      if next.None? {
        return Failure(DeadEnd(path));
      }
      WalkExtend(adj, nodes.items, path, next.value);
      act := next.value;
      path := path + [act];
    }
    return Success(path);
  }

  /** A greedy step extends a walk, keeps it strictly increasing and within the keys. */
  lemma WalkExtend(adj: Dict<seq<Id>>, dur: map<Id, int>, path: seq<Id>, m: Id)
    requires WellFormed(adj) && GreedyWalk(adj, dur, path) && StrictlySorted(path)
    requires IsGreedyChoice(adj.items[path[|path| - 1]], path[|path| - 1], dur, Some(m))
    ensures GreedyWalk(adj, dur, path + [m]) && StrictlySorted(path + [m])
    ensures |path + [m]| <= |adj.items.Keys|
  {
    var x := path[|path| - 1];
    var nbrs := adj.items[x];
    var c :| 0 <= c < |nbrs| && nbrs[c] == m && ChosenUpTo(nbrs, |nbrs|, x, dur, c);
    assert m in adj.items;
    var p := path + [m];
    assert forall i :: 0 <= i < |path| ==> p[i] == path[i];
    assert StrictlySorted(p);
    assert GreedyWalk(adj, dur, p);
    WalkWithinKeys(adj, p);
  }

  /** A strictly increasing walk over keys is no longer than there are keys. */
  lemma WalkWithinKeys(adj: Dict<seq<Id>>, path: seq<Id>)
    requires StrictlySorted(path)
    requires forall i :: 0 <= i < |path| ==> path[i] in adj.items
    ensures |path| <= |adj.items.Keys|
  {
    SortedDistinct(path);
    DistinctBound(path, adj.items.Keys);
  }

  /** Identifiers strictly increase along a greedy walk. */
  lemma {:induction false} GreedyWalkIncreasing(adj: Dict<seq<Id>>, dur: map<Id, int>, path: seq<Id>)
    requires GreedyWalk(adj, dur, path)
    ensures StrictlySorted(path)
    ensures |path| <= |adj.items.Keys|
  {
    if |path| > 1 {
      var init := path[..|path| - 1];
      assert forall i :: 0 <= i < |init| ==> init[i] == path[i];
      assert GreedyWalk(adj, dur, init);
      GreedyWalkIncreasing(adj, dur, init);
      var x := path[|path| - 2];
      var nbrs := adj.items[x];
      assert IsGreedyChoice(nbrs, x, dur, Some(path[|path| - 1]));
      var c :| 0 <= c < |nbrs| && nbrs[c] == path[|path| - 1] && ChosenUpTo(nbrs, |nbrs|, x, dur, c);
      forall i, j | 0 <= i < j < |path| ensures path[i] < path[j] {
        if j < |path| - 1 {
          assert init[i] < init[j];
        } else if i < |path| - 2 {
          assert init[i] < init[|path| - 2];
        }
      }
    }
    WalkWithinKeys(adj, path);
  }

  /** Two greedy walks of the same length from the same task are the same walk. */
  lemma {:induction false} GreedyWalkUnique(adj: Dict<seq<Id>>, dur: map<Id, int>, p: seq<Id>, q: seq<Id>)
    requires GreedyWalk(adj, dur, p) && GreedyWalk(adj, dur, q)
    requires |p| == |q| && p[0] == q[0]
    ensures p == q
  {
    if |p| > 1 {
      var p', q' := p[..|p| - 1], q[..|q| - 1];
      assert forall i :: 0 <= i < |p'| ==> p'[i] == p[i] && q'[i] == q[i];
      assert GreedyWalk(adj, dur, p') && GreedyWalk(adj, dur, q');
      GreedyWalkUnique(adj, dur, p', q');
      var n := |p| - 2;
      assert p[n] == p'[n] == q'[n] == q[n];
      GreedyChoiceUnique(adj.items[p[n]], p[n], dur, Some(p[n + 1]), Some(q[n + 1]));
      assert p == p' + [p[n + 1]] && q == q' + [q[n + 1]];
    }
  }

  /** The duration of each task of the path, in path order. */
  method GetDurations(path: seq<Id>, nodes: map<Id, int>) returns (durations: seq<int>)
    requires forall i :: 0 <= i < |path| ==> path[i] in nodes
    ensures |durations| == |path|
    ensures forall i :: 0 <= i < |path| ==> durations[i] == nodes[path[i]]
  {
    durations := [];
    for i := 0 to |path|
      invariant |durations| == i
      invariant forall k :: 0 <= k < i ==> durations[k] == nodes[path[k]]
    {
      durations := durations + [nodes[path[i]]];
    }
  }

  /** The Gantt chart lays the path's tasks end to end from the start of the first: the
      offset `sum(durations[:i])` of the `i`-th bar never exceeds how much the earliest start
      of its task lies after the first task's. */
  lemma {:induction false} GanttOffsetsWithinSchedule(adj: Dict<seq<Id>>, dur: map<Id, int>, start: Dict<int>,
                                                      path: seq<Id>, durations: seq<int>, n: nat)
    requires IsSchedule(adj, dur, start) && Symmetric(adj)
    requires GreedyWalk(adj, dur, path) && n < |path|
    requires |durations| == |path|
    requires forall i :: 0 <= i < |path| ==> path[i] in dur && durations[i] == dur[path[i]]
    ensures start.items[path[0]] + Sum(durations[..n]) <= start.items[path[n]]
  {
    if n > 0 {
      GanttOffsetsWithinSchedule(adj, dur, start, path, durations, n - 1);
      StartsAfterPreviousOnPath(adj, dur, start, path, n);
      SumPrefixStep(durations, n);
    }
  }

  /** A task of a greedy walk starts no earlier than the one before it finishes: the one
      before is a smaller neighbour of it. */
  lemma StartsAfterPreviousOnPath(adj: Dict<seq<Id>>, dur: map<Id, int>, start: Dict<int>, path: seq<Id>, n: nat)
    requires IsSchedule(adj, dur, start) && Symmetric(adj)
    requires GreedyWalk(adj, dur, path) && 0 < n < |path|
    ensures path[n - 1] in dur && path[n - 1] in start.items && path[n] in start.items
    ensures dur[path[n - 1]] + start.items[path[n - 1]] <= start.items[path[n]]
  {
    var x, y := path[n - 1], path[n];
    var nbrs := adj.items[x];
    assert IsGreedyChoice(nbrs, x, dur, Some(y));
    var c :| 0 <= c < |nbrs| && nbrs[c] == y && ChosenUpTo(nbrs, |nbrs|, x, dur, c);
    assert x in adj.items[y];
    var ys := adj.items[y];
    var k :| 0 <= k < |ys| && ys[k] == x;
    assert EarliestAt(ys, y, dur, start.items, start.items[y]);
  }

  /** On the chain A->B->C with durations A=3, B=2, C=4 the greedy walk is A, B, C. */
  lemma ChainCriticalPath()
    ensures GreedyWalk(ChainAdj(), ChainDurations(), ['A', 'B', 'C'])
  {
    var adj, dur := ChainAdj(), ChainDurations();
    assert ChosenUpTo(adj.items['A'], 1, 'A', dur, 0);
    assert ChosenUpTo(adj.items['B'], 2, 'B', dur, 1);
    assert IsGreedyChoice(adj.items['A'], 'A', dur, Some('B'));
    assert IsGreedyChoice(adj.items['B'], 'B', dur, Some('C'));
  }

  /** The duration map of the chain, in key order. */
  function ChainNodes(): Dict<int> {
    Dict(['A', 'B', 'C'], ChainDurations())
  }

  /** Every greedy walk of the chain from A is a prefix of A, B, C. */
  lemma ChainWalks(p: seq<Id>)
    requires GreedyWalk(ChainAdj(), ChainDurations(), p) && p[0] == 'A'
    ensures |p| <= 3 && p == ['A', 'B', 'C'][..|p|]
  {
    var adj, dur := ChainAdj(), ChainDurations();
    assert adj.items.Keys == {'A', 'B', 'C'};
    GreedyWalkIncreasing(adj, dur, p);
    ChainCriticalPath();
    var full := ['A', 'B', 'C'];
    var q := full[..|p|];
    assert forall i :: 0 <= i < |q| ==> q[i] == full[i];
    assert GreedyWalk(adj, dur, q);
    GreedyWalkUnique(adj, dur, p, q);
  }

  /** What get_critical_path promises for the chain's view and durations leaves one
      outcome: the path A, B, C. */
  lemma ChainOutcome(r: Result<seq<Id>, WalkError>)
    requires r != Failure(NoTasks)
    requires !(r.Failure? && r.error.NotInGraph?)
    requires r.Success? ==>
               var path := r.value;
               GreedyWalk(ChainAdj(), ChainDurations(), path) && |path| >= 2 && path[0] == 'A' && path[|path| - 1] == 'C'
    requires r.Failure? && r.error.MissingDuration? ==>
               var w := r.error.walked;
               && GreedyWalk(ChainAdj(), ChainDurations(), w) && w[0] == 'A'
               && !LaterDurations(ChainAdj().items[w[|w| - 1]], w[|w| - 1], ChainDurations())
    requires r.Failure? && r.error.DeadEnd? ==>
               var w := r.error.walked;
               && GreedyWalk(ChainAdj(), ChainDurations(), w) && w[0] == 'A'
               && IsGreedyChoice(ChainAdj().items[w[|w| - 1]], w[|w| - 1], ChainDurations(), None)
               && (forall i :: 1 <= i < |w| ==> w[i] != 'C')
    ensures r == Success(['A', 'B', 'C'])
  {
    match r
    case Success(path) =>
      ChainWalks(path);
      var full := ['A', 'B', 'C'];
      assert path[|path| - 1] == full[|path| - 1];
      assert |path| == 3;
      assert full[..3] == full;
    case Failure(e) =>
      match e
      case MissingDuration(w) =>
        ChainWalks(w);
        assert false;
      case DeadEnd(w) =>
        ChainNoDeadEnd(w);
        assert false;
  }

  /** A greedy walk of the chain from A that has not reached C can always go on. */
  lemma ChainNoDeadEnd(w: seq<Id>)
    requires GreedyWalk(ChainAdj(), ChainDurations(), w) && w[0] == 'A'
    requires forall i :: 1 <= i < |w| ==> w[i] != 'C'
    ensures !IsGreedyChoice(ChainAdj().items[w[|w| - 1]], w[|w| - 1], ChainDurations(), None)
  {
    ChainWalks(w);
    assert w[|w| - 1] == ['A', 'B', 'C'][|w| - 1];
    var x := w[|w| - 1];
    var nbrs := ChainAdj().items[x];
    var c := if x == 'A' then 0 else 1;
    assert 0 <= c < |nbrs| && x < nbrs[c] && nbrs[c] in ChainDurations() && ChainDurations()[nbrs[c]] > 0;
  }

  /** get_adj_list, get_ordering and get_critical_path on the chain A->B->C with durations
      A=3, B=2, C=4: the starts are A=0, B=3, C=5 and the critical path is A, B, C. */
  method ChainRun() returns (start: Dict<int>, r: Result<seq<Id>, WalkError>)
    ensures start == ChainStarts()
    ensures r == Success(['A', 'B', 'C'])
  {
    var adj := GetAdjList(ChainEdges());
    ChainAdjIsBuilt(adj);
    AdjListShape(ChainEdges(), adj);
    KeyDurationsSuffice(adj, ChainDurations());
    start := GetOrdering(adj, ChainDurations());
    ChainSchedule(start);
    r := GetCriticalPath(adj, ChainNodes());
    ChainOutcome(r);
  }
}
