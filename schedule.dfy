/** get_ordering, extend_nodes and the total reported by print_result: earliest start
    times over the adjacency view, where a neighbour counts as a predecessor exactly when
    its identifier is smaller. */
module Schedule {
  import opened Dicts
  import opened Graph
  import opened Adjacency

  /** Every neighbour with a smaller identifier than its key has a duration. */
  predicate HasEarlierDurations(adj: Dict<seq<Id>>, dur: map<Id, int>) {
    forall k, i :: k in adj.items && 0 <= i < |adj.items[k]| && adj.items[k][i] < k ==> adj.items[k][i] in dur
  }

  /** `s` bounds `dur[n] + start[n]` for every neighbour `n` among the first `j` of `nbrs`
      whose identifier is smaller than `k`, is not negative, and is 0 or one of those sums. */
  ghost predicate EarliestUpTo(nbrs: seq<Id>, j: nat, k: Id, dur: map<Id, int>, start: map<Id, int>, s: int)
    requires j <= |nbrs|
  {
    && s >= 0
    && (forall i :: 0 <= i < j && nbrs[i] < k ==>
          nbrs[i] in dur && nbrs[i] in start && dur[nbrs[i]] + start[nbrs[i]] <= s)
    && (s == 0 ||
        exists i :: 0 <= i < j && nbrs[i] < k &&
                    nbrs[i] in dur && nbrs[i] in start && dur[nbrs[i]] + start[nbrs[i]] == s)
  }

  /** `s` is the earliest start of `k`: the latest finish of a smaller neighbour, or 0 when
      that is negative or there is none. */
  ghost predicate EarliestAt(nbrs: seq<Id>, k: Id, dur: map<Id, int>, start: map<Id, int>, s: int) {
    EarliestUpTo(nbrs, |nbrs|, k, dur, start, s)
  }

  /** `start` lists the keys of `adj` in the same order and gives each its earliest start. */
  ghost predicate IsSchedule(adj: Dict<seq<Id>>, dur: map<Id, int>, start: Dict<int>) {
    && start.keys == adj.keys
    && start.items.Keys == adj.items.Keys
    && forall k :: k in start.items ==> EarliestAt(adj.items[k], k, dur, start.items, start.items[k])
  }

  /** Computes the start time of every task in one pass over the keys in ascending order;
      smaller neighbours come earlier in that order, so their starts are already known. */
  method GetOrdering(adj: Dict<seq<Id>>, dur: map<Id, int>) returns (start: Dict<int>)
    requires WellFormed(adj) && HasEarlierDurations(adj, dur)
    ensures IsSchedule(adj, dur, start)
  {
    var keys: seq<Id> := [];
    var items: map<Id, int> := map[];
    for p := 0 to |adj.keys|
      invariant keys == adj.keys[..p]
      invariant items.Keys == Elems(adj.keys[..p])
      invariant forall k :: k in items ==> EarliestAt(adj.items[k], k, dur, items, items[k])
    {
      var k := adj.keys[p];
      var best := LatestPredecessorFinish(adj, dur, p, items);
      ScheduleStep(adj, dur, p, items, best);
      PrefixStep(adj.keys, p);
      items := items[k := best];
      keys := keys + [k];
    }
    assert adj.keys[..|adj.keys|] == adj.keys;
    start := Dict(keys, items);
  }

  /** The inner loop of get_ordering for the `p`-th key `k`: the start of `k` begins at 0 and
      is raised to the finish of every smaller neighbour that finishes later. */
  method LatestPredecessorFinish(adj: Dict<seq<Id>>, dur: map<Id, int>, p: nat, items: map<Id, int>)
    returns (best: int)
    requires WellFormed(adj) && HasEarlierDurations(adj, dur) && p < |adj.keys|
    requires items.Keys == Elems(adj.keys[..p])
    ensures EarliestAt(adj.items[adj.keys[p]], adj.keys[p], dur, items, best)
  {
    var k := adj.keys[p];
    assert k in Elems(adj.keys);
    var nbrs := adj.items[k];
    best := 0;
    for j := 0 to |nbrs|
      invariant EarliestUpTo(nbrs, j, k, dur, items, best)
    {
      var n := nbrs[j];
      if n < k {
        EarlierKeyDone(adj, p, n);
      }
      EarliestStep(nbrs, j, k, dur, items, best);
      if n < k {
        if best < dur[n] + items[n] {
          best := dur[n] + items[n];
        }
      }
    }
  }

  /** Scanning the `j`-th neighbour raises the running start to its finish when it is a
      smaller identifier that finishes later. */
  lemma EarliestStep(nbrs: seq<Id>, j: nat, k: Id, dur: map<Id, int>, start: map<Id, int>, best: int)
    requires j < |nbrs| && EarliestUpTo(nbrs, j, k, dur, start, best)
    requires nbrs[j] < k ==> nbrs[j] in dur && nbrs[j] in start
    ensures var n := nbrs[j];
            EarliestUpTo(nbrs, j + 1, k, dur, start,
                         if n < k && best < dur[n] + start[n] then dur[n] + start[n] else best)
  {
  }

  /** A neighbour of the `p`-th key with a smaller identifier is among the keys before it. */
  lemma EarlierKeyDone(adj: Dict<seq<Id>>, p: nat, n: Id)
    requires WellFormed(adj) && p < |adj.keys|
    requires n in adj.items[adj.keys[p]] && n < adj.keys[p]
    ensures n in Elems(adj.keys[..p])
  {
    var k := adj.keys[p];
    assert k in Elems(adj.keys);
    var i :| 0 <= i < |adj.items[k]| && adj.items[k][i] == n;
    assert n in Elems(adj.keys);
    var q :| 0 <= q < |adj.keys| && adj.keys[q] == n;
    assert adj.keys[..p][q] == n;
  }

  /** Recording the start of the `p`-th key keeps every recorded start earliest. */
  lemma ScheduleStep(adj: Dict<seq<Id>>, dur: map<Id, int>, p: nat, items: map<Id, int>, best: int)
    requires WellFormed(adj) && p < |adj.keys|
    requires items.Keys == Elems(adj.keys[..p])
    requires forall k :: k in items ==> EarliestAt(adj.items[k], k, dur, items, items[k])
    requires EarliestAt(adj.items[adj.keys[p]], adj.keys[p], dur, items, best)
    ensures items[adj.keys[p] := best].Keys == Elems(adj.keys[..p + 1])
    ensures forall k :: k in items[adj.keys[p] := best] ==>
              EarliestAt(adj.items[k], k, dur, items[adj.keys[p] := best], items[adj.keys[p] := best][k])
  {
    var k := adj.keys[p];
    StartKeysStep(adj.keys, p, items, best);
    forall k' | k' in items[k := best]
      ensures EarliestAt(adj.items[k'], k', dur, items[k := best], items[k := best][k'])
    {
      if k' == k {
        EarliestFrame(adj.items[k], k, dur, items, best, k, best);
      } else {
        EarlierKeyFrame(adj, dur, p, items, k', best);
      }
    }
  }

  /** Giving the `p`-th key its start extends the keys done to the first `p + 1`. */
  lemma StartKeysStep(keys: seq<Id>, p: nat, items: map<Id, int>, best: int)
    requires p < |keys| && items.Keys == Elems(keys[..p])
    ensures items[keys[p] := best].Keys == Elems(keys[..p + 1])
  {
    PrefixStep(keys, p);
    assert Elems(keys[..p] + [keys[p]]) == Elems(keys[..p]) + {keys[p]};
  }

  lemma EarlierKeyFrame(adj: Dict<seq<Id>>, dur: map<Id, int>, p: nat, items: map<Id, int>, k': Id, best: int)
    requires WellFormed(adj) && p < |adj.keys|
    requires k' in Elems(adj.keys[..p]) && k' in items
    requires EarliestAt(adj.items[k'], k', dur, items, items[k'])
    ensures EarliestAt(adj.items[k'], k', dur, items[adj.keys[p] := best], items[k'])
  {
    var q :| 0 <= q < p && adj.keys[..p][q] == k';
    assert adj.keys[q] == k';
    EarliestFrame(adj.items[k'], k', dur, items, items[k'], adj.keys[p], best);
  }

  /** A start depends only on the starts of smaller identifiers, so setting the start of an
      identifier no smaller than `k` leaves it earliest. */
  lemma EarliestFrame(nbrs: seq<Id>, k: Id, dur: map<Id, int>, start: map<Id, int>, s: int, m: Id, w: int)
    requires EarliestAt(nbrs, k, dur, start, s)
    requires k <= m
    ensures EarliestAt(nbrs, k, dur, start[m := w], s)
  {
    if s != 0 {
      var i :| 0 <= i < |nbrs| && nbrs[i] < k && nbrs[i] in dur && nbrs[i] in start &&
               dur[nbrs[i]] + start[nbrs[i]] == s;
      assert start[m := w][nbrs[i]] == start[nbrs[i]];
    }
  }

  /** There is only one schedule: every start is determined by the smaller ones. */
  lemma ScheduleUnique(adj: Dict<seq<Id>>, dur: map<Id, int>, s1: Dict<int>, s2: Dict<int>)
    requires IsSchedule(adj, dur, s1) && IsSchedule(adj, dur, s2)
    ensures s1 == s2
  {
    forall k | k in s1.items ensures s1.items[k] == s2.items[k] {
      SameStart(adj, dur, s1, s2, k);
    }
    assert s1.items == s2.items;
  }

  lemma {:induction false} SameStart(adj: Dict<seq<Id>>, dur: map<Id, int>, s1: Dict<int>, s2: Dict<int>, k: Id)
    requires IsSchedule(adj, dur, s1) && IsSchedule(adj, dur, s2)
    requires k in s1.items
    ensures s1.items[k] == s2.items[k]
    decreases k as int
  {
    var nbrs := adj.items[k];
    var a, b := s1.items[k], s2.items[k];
    assert EarliestAt(nbrs, k, dur, s1.items, a);
    assert EarliestAt(nbrs, k, dur, s2.items, b);
    forall i | 0 <= i < |nbrs| && nbrs[i] < k
      ensures s1.items[nbrs[i]] == s2.items[nbrs[i]]
    {
      SameStart(adj, dur, s1, s2, nbrs[i]);
    }
    if a != 0 {
      var i :| 0 <= i < |nbrs| && nbrs[i] < k && nbrs[i] in dur && nbrs[i] in s1.items &&
               dur[nbrs[i]] + s1.items[nbrs[i]] == a;
      assert a <= b;
    }
    if b != 0 {
      var i :| 0 <= i < |nbrs| && nbrs[i] < k && nbrs[i] in dur && nbrs[i] in s2.items &&
               dur[nbrs[i]] + s2.items[nbrs[i]] == b;
      assert b <= a;
    }
  }

  /** Copies the duration of every key of `adj`, in key order, using 0 for a key without one. */
  method ExtendNodes(adj: Dict<seq<Id>>, nodes: map<Id, int>) returns (durations: Dict<int>)
    requires Distinct(adj.keys)
    ensures durations.keys == adj.keys
    ensures durations.items.Keys == Elems(adj.keys)
    ensures forall k :: k in durations.items ==> durations.items[k] == if k in nodes then nodes[k] else 0
  {
    var keys: seq<Id> := [];
    var items: map<Id, int> := map[];
    for p := 0 to |adj.keys|
      invariant keys == adj.keys[..p]
      invariant items.Keys == Elems(adj.keys[..p])
      invariant forall k :: k in items ==> items[k] == if k in nodes then nodes[k] else 0
    {
      var k := adj.keys[p];
      PrefixStep(adj.keys, p);
      if k in nodes {
        items := items[k := nodes[k]];
      } else {
        items := items[k := 0];
      }
      keys := keys + [k];
    }
    assert adj.keys[..|adj.keys|] == adj.keys;
    durations := Dict(keys, items);
  }

  /** Durations for every key, as extend_nodes produces, are all the start-time pass reads. */
  lemma KeyDurationsSuffice(adj: Dict<seq<Id>>, dur: map<Id, int>)
    requires WellFormed(adj)
    requires adj.items.Keys <= dur.Keys
    ensures HasEarlierDurations(adj, dur)
  {
    forall k, i | k in adj.items && 0 <= i < |adj.items[k]| && adj.items[k][i] < k
      ensures adj.items[k][i] in dur
    {
      assert adj.items[k][i] in adj.items;
    }
  }

  /** The total print_result reports: the finish of the last key of the start map, or 0
      when there is none. */
  function ReportedTotal(start: Dict<int>, dur: map<Id, int>): (total: int)
    requires DictValid(start) && start.items.Keys <= dur.Keys
    ensures start.keys != [] ==>
              var last := start.keys[|start.keys| - 1];
              last in start.items && total == start.items[last] + dur[last]
    ensures start.keys == [] ==> total == 0
  {
    if start.keys == [] then 0
    else
      var last := start.keys[|start.keys| - 1];
      assert last in Elems(start.keys);
      start.items[last] + dur[last]
  }

  /** The loop of print_result, keeping only its arithmetic: the total is set when the
      last key is printed. */
  method TotalTime(start: Dict<int>, dur: map<Id, int>) returns (total: int)
    requires DictValid(start) && start.items.Keys <= dur.Keys
    ensures total == ReportedTotal(start, dur)
  {
    total := 0;
    var keys := start.keys;
    for p := 0 to |keys|
      invariant total == if p == |keys| && p > 0 then ReportedTotal(start, dur) else 0
    {
      var k := keys[p];
      assert k in Elems(keys);
      if k == keys[|keys| - 1] {
        total := start.items[k] + dur[k];
      }
    }
  }

  /** The finish of the task at position `p` of the start map. */
  function EndAt(start: Dict<int>, dur: map<Id, int>, p: nat): int
    requires DictValid(start) && start.items.Keys <= dur.Keys && p < |start.keys|
  {
    assert start.keys[p] in Elems(start.keys);
    start.items[start.keys[p]] + dur[start.keys[p]]
  }

  /** The latest finish among the first `n` keys, or 0 when it is negative or there are
      none: the finish time of the whole project. */
  function LatestEnd(start: Dict<int>, dur: map<Id, int>, n: nat): (t: int)
    requires DictValid(start) && start.items.Keys <= dur.Keys && n <= |start.keys|
    ensures t >= 0
    ensures forall p :: 0 <= p < n ==> EndAt(start, dur, p) <= t
    ensures t == 0 || exists p :: 0 <= p < n && EndAt(start, dur, p) == t
  {
    if n == 0 then 0
    else
      var before := LatestEnd(start, dur, n - 1);
      var e := EndAt(start, dur, n - 1);
      if e > before then e else before
  }

  /** The corrected total: when every task finishes. */
  function ProjectEnd(start: Dict<int>, dur: map<Id, int>): int
    requires DictValid(start) && start.items.Keys <= dur.Keys
  {
    LatestEnd(start, dur, |start.keys|)
  }

  /** The project end is no earlier than the reported total, and no task finishes after it. */
  lemma ProjectEndBounds(start: Dict<int>, dur: map<Id, int>)
    requires DictValid(start) && start.items.Keys <= dur.Keys
    ensures ReportedTotal(start, dur) <= ProjectEnd(start, dur)
    ensures forall k :: k in start.items ==> start.items[k] + dur[k] <= ProjectEnd(start, dur)
  {
    forall k | k in start.items ensures start.items[k] + dur[k] <= ProjectEnd(start, dur) {
      var p :| 0 <= p < |start.keys| && start.keys[p] == k;
      assert EndAt(start, dur, p) <= ProjectEnd(start, dur);
    }
    if start.keys != [] {
      assert EndAt(start, dur, |start.keys| - 1) <= ProjectEnd(start, dur);
    }
  }

  /** A dict whose keys are A, B and C is determined by its three values. */
  lemma ThreeKeys<V>(d: Dict<V>)
    requires d.keys == ['A', 'B', 'C'] && d.items.Keys == {'A', 'B', 'C'}
    ensures d == Dict(['A', 'B', 'C'], map['A' := d.items['A'], 'B' := d.items['B'], 'C' := d.items['C']])
  {
  }

  /** The edges A->B, B->C. */
  function ChainEdges(): seq<Edge> {
    [('A', 'B'), ('B', 'C')]
  }

  /** The edges A->B, A->C. */
  function ForkEdges(): seq<Edge> {
    [('A', 'B'), ('A', 'C')]
  }

  /** The only strictly ascending listing of A, B and C. */
  lemma SortedABC(s: seq<Id>)
    requires StrictlySorted(s) && Elems(s) == {'A', 'B', 'C'}
    ensures s == ['A', 'B', 'C']
  {
    assert 'A' in Elems(s) && 'B' in Elems(s) && 'C' in Elems(s);
    var a :| 0 <= a < |s| && s[a] == 'A';
    var b :| 0 <= b < |s| && s[b] == 'B';
    var c :| 0 <= c < |s| && s[c] == 'C';
    assert a < b < c;
    SortedDistinct(s);
    DistinctBound(s, {'A', 'B', 'C'});
  }

  /** The adjacency view of the edges A->B, B->C. */
  function ChainAdj(): Dict<seq<Id>> {
    Dict(['A', 'B', 'C'], map['A' := ['B'], 'B' := ['A', 'C'], 'C' := ['B']])
  }

  /** get_adj_list builds `ChainAdj()` from the chain's edges. */
  lemma ChainAdjIsBuilt(adj: Dict<seq<Id>>)
    requires StrictlySorted(adj.keys)
    requires Elems(adj.keys) == adj.items.Keys == Nodes(ChainEdges())
    requires forall x :: x in adj.items ==> adj.items[x] == Adj(ChainEdges(), |ChainEdges()|, x)
    ensures adj == ChainAdj()
  {
    var e := ChainEdges();
    assert |e| == 2;
    ChainEndpoints();
    SortedABC(adj.keys);
    ChainAdjLists();
    assert adj.items['A'] == Adj(e, 2, 'A');
    assert adj.items['B'] == Adj(e, 2, 'B');
    assert adj.items['C'] == Adj(e, 2, 'C');
    ThreeKeys(adj);
  }

  lemma ChainEndpoints()
    ensures Nodes(ChainEdges()) == {'A', 'B', 'C'}
  {
    var e := ChainEdges();
    assert e[0] == ('A', 'B') && e[1] == ('B', 'C');
  }

  /** The neighbour lists get_adj_list appends for the chain's edges. */
  lemma ChainAdjLists()
    ensures Adj(ChainEdges(), 2, 'A') == ['B']
    ensures Adj(ChainEdges(), 2, 'B') == ['A', 'C']
    ensures Adj(ChainEdges(), 2, 'C') == ['B']
  {
    var e := ChainEdges();
    assert e[0] == ('A', 'B') && e[1] == ('B', 'C');
    assert Adj(e, 1, 'A') == ['B'] && Adj(e, 1, 'B') == ['A'] && Adj(e, 1, 'C') == [];
  }

  function ChainDurations(): map<Id, int> {
    map['A' := 3, 'B' := 2, 'C' := 4]
  }

  function ChainStarts(): Dict<int> {
    Dict(['A', 'B', 'C'], map['A' := 0, 'B' := 3, 'C' := 5])
  }

  lemma ChainStartsAreEarliest()
    ensures IsSchedule(ChainAdj(), ChainDurations(), ChainStarts())
  {
    var adj, dur, start := ChainAdj(), ChainDurations(), ChainStarts().items;
    assert EarliestAt(adj.items['A'], 'A', dur, start, 0);
    assert EarliestAt(adj.items['B'], 'B', dur, start, 3) by {
      assert adj.items['B'][0] == 'A';
    }
    assert EarliestAt(adj.items['C'], 'C', dur, start, 5) by {
      assert adj.items['C'][0] == 'B';
    }
  }

  /** With durations A=3, B=2, C=4 on the chain A->B->C the starts are A=0, B=3, C=5. */
  lemma ChainSchedule(start: Dict<int>)
    requires IsSchedule(ChainAdj(), ChainDurations(), start)
    ensures start == ChainStarts()
  {
    ChainStartsAreEarliest();
    ScheduleUnique(ChainAdj(), ChainDurations(), start, ChainStarts());
  }

  /** The adjacency view of the edges A->B, A->C. */
  function ForkAdj(): Dict<seq<Id>> {
    Dict(['A', 'B', 'C'], map['A' := ['B', 'C'], 'B' := ['A'], 'C' := ['A']])
  }

  /** get_adj_list builds `ForkAdj()` from the fork's edges. */
  lemma ForkAdjIsBuilt(adj: Dict<seq<Id>>)
    requires StrictlySorted(adj.keys)
    requires Elems(adj.keys) == adj.items.Keys == Nodes(ForkEdges())
    requires forall x :: x in adj.items ==> adj.items[x] == Adj(ForkEdges(), |ForkEdges()|, x)
    ensures adj == ForkAdj()
  {
    var e := ForkEdges();
    assert |e| == 2;
    ForkEndpoints();
    SortedABC(adj.keys);
    ForkAdjLists();
    assert adj.items['A'] == Adj(e, 2, 'A');
    assert adj.items['B'] == Adj(e, 2, 'B');
    assert adj.items['C'] == Adj(e, 2, 'C');
    ThreeKeys(adj);
  }

  lemma ForkEndpoints()
    ensures Nodes(ForkEdges()) == {'A', 'B', 'C'}
  {
    var e := ForkEdges();
    assert e[0] == ('A', 'B') && e[1] == ('A', 'C');
  }

  /** The neighbour lists get_adj_list appends for the fork's edges. */
  lemma ForkAdjLists()
    ensures Adj(ForkEdges(), 2, 'A') == ['B', 'C']
    ensures Adj(ForkEdges(), 2, 'B') == ['A']
    ensures Adj(ForkEdges(), 2, 'C') == ['A']
  {
    var e := ForkEdges();
    assert e[0] == ('A', 'B') && e[1] == ('A', 'C');
    assert Adj(e, 1, 'A') == ['B'] && Adj(e, 1, 'B') == ['A'] && Adj(e, 1, 'C') == [];
  }

  function ForkDurations(): map<Id, int> {
    map['A' := 1, 'B' := 10, 'C' := 1]
  }

  function ForkStarts(): Dict<int> {
    Dict(['A', 'B', 'C'], map['A' := 0, 'B' := 1, 'C' := 1])
  }

  lemma ForkStartsAreEarliest()
    ensures IsSchedule(ForkAdj(), ForkDurations(), ForkStarts())
  {
    var adj, dur, start := ForkAdj(), ForkDurations(), ForkStarts().items;
    assert EarliestAt(adj.items['A'], 'A', dur, start, 0);
    assert EarliestAt(adj.items['B'], 'B', dur, start, 1) by {
      assert adj.items['B'][0] == 'A';
    }
    assert EarliestAt(adj.items['C'], 'C', dur, start, 1) by {
      assert adj.items['C'][0] == 'A';
    }
  }

  /** With durations A=1, B=10, C=1 on the fork A->B, A->C the starts are A=0, B=1, C=1:
      the reported total is C's finish 2, while B finishes at 11. */
  lemma ForkTotalMissesLaterFinish(start: Dict<int>)
    requires IsSchedule(ForkAdj(), ForkDurations(), start)
    ensures DictValid(start) && start.items.Keys <= ForkDurations().Keys
    ensures ReportedTotal(start, ForkDurations()) == 2
    ensures ProjectEnd(start, ForkDurations()) == 11
  {
    ForkStartsAreEarliest();
    ScheduleUnique(ForkAdj(), ForkDurations(), start, ForkStarts());
    ForkEnds();
  }

  /** get_adj_list, get_ordering and the total of print_result on the fork A->B, A->C with
      durations A=1, B=10, C=1: the starts are A=0, B=1, C=1 and the reported total is 2,
      while B finishes at 11. */
  method ForkRun() returns (start: Dict<int>, total: int)
    ensures start == ForkStarts()
    ensures total == 2
    ensures total < ProjectEnd(ForkStarts(), ForkDurations())
  {
    var adj := GetAdjList(ForkEdges());
    ForkAdjIsBuilt(adj);
    AdjListShape(ForkEdges(), adj);
    KeyDurationsSuffice(adj, ForkDurations());
    start := GetOrdering(adj, ForkDurations());
    ForkStartsAreEarliest();
    ScheduleUnique(adj, ForkDurations(), start, ForkStarts());
    ForkEnds();
    total := TotalTime(start, ForkDurations());
  }

  lemma ForkEnds()
    ensures DictValid(ForkStarts()) && ForkStarts().items.Keys <= ForkDurations().Keys
    ensures ReportedTotal(ForkStarts(), ForkDurations()) == 2
    ensures ProjectEnd(ForkStarts(), ForkDurations()) == 11
  {
    var start, dur := ForkStarts(), ForkDurations();
    assert Elems(start.keys) == {'A', 'B', 'C'};
    assert EndAt(start, dur, 0) == 1 && EndAt(start, dur, 1) == 11 && EndAt(start, dur, 2) == 2;
  }
}
