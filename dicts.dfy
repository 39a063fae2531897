/** Task identifiers, insertion-ordered dictionaries and the sequence facts the
    scheduler's proofs share. */
module Dicts {

  /** A task identifier: a single character, ordered by its code point (Python's `ord`). */
  type Id = char

  datatype Option<+T> = None | Some(value: T)

  datatype Result<+R, +E> = Success(value: R) | Failure(error: E)

  /** A Python dict keyed by task identifiers: `keys` is its iteration (insertion) order. */
  datatype Dict<V> = Dict(keys: seq<Id>, items: map<Id, V>)

  /** The set of elements of a sequence. */
  function Elems(s: seq<Id>): set<Id> {
    set x | x in s
  }

  predicate Distinct(s: seq<Id>) {
    forall i, j :: 0 <= i < j < |s| ==> s[i] != s[j]
  }

  predicate StrictlySorted(s: seq<Id>) {
    forall i, j :: 0 <= i < j < |s| ==> s[i] < s[j]
  }

  /** The keys list each key of the map exactly once. */
  predicate DictValid<V>(d: Dict<V>) {
    Distinct(d.keys) && Elems(d.keys) == d.items.Keys
  }

  function Sum(s: seq<int>): int {
    if s == [] then 0 else Sum(s[..|s| - 1]) + s[|s| - 1]
  }

  /** The sum of the first `n` elements adds the `n`-th to the sum of the first `n - 1`. */
  lemma SumPrefixStep(s: seq<int>, n: nat)
    requires 0 < n <= |s|
    ensures Sum(s[..n]) == Sum(s[..n - 1]) + s[n - 1]
  {
    assert s[..n][..n - 1] == s[..n - 1];
  }

  /** A sequence without repetitions drawn from `S` is no longer than `S` is large. */
  lemma {:induction false} DistinctBound(s: seq<Id>, S: set<Id>)
    requires Distinct(s)
    requires Elems(s) <= S
    ensures |s| <= |S|
  {
    if s != [] {
      var x := s[|s| - 1];
      var t := s[..|s| - 1];
      assert forall i :: 0 <= i < |t| ==> t[i] in S - {x} by {
        forall i | 0 <= i < |t| ensures t[i] in S - {x} {
          assert t[i] == s[i] && s[i] != s[|s| - 1];
        }
      }
      DistinctBound(t, S - {x});
      assert forall i :: 0 <= i < |s| ==> s[i] in Elems(s);
      assert S == (S - {x}) + {x};
    }
  }

  /** Appending an element adds it to the elements. */
  lemma ElemsAppend(s: seq<Id>, x: Id)
    ensures Elems(s + [x]) == Elems(s) + {x}
  {
  }

  /** Appending a new element keeps a sequence distinct and adds it to the elements. */
  lemma DistinctAppend(s: seq<Id>, x: Id)
    requires Distinct(s) && x !in s
    ensures Distinct(s + [x])
    ensures Elems(s + [x]) == Elems(s) + {x}
  {
    var t := s + [x];
    assert forall i :: 0 <= i < |s| ==> t[i] == s[i];
    assert t[|s|] == x;
  }

  /** The element between two parts of a sequence without repetitions is in neither part. */
  lemma DistinctSplit(a: seq<Id>, x: Id, b: seq<Id>)
    requires Distinct(a + [x] + b)
    ensures x !in a && x !in b
  {
    var s := a + [x] + b;
    assert s[|a|] == x;
    assert forall i :: 0 <= i < |a| ==> a[i] == s[i];
    assert forall i :: 0 <= i < |b| ==> b[i] == s[|a| + 1 + i];
  }

  /** Pigeonhole: a sequence drawn from `S` that is longer than `S` repeats an element. */
  lemma Pigeonhole(s: seq<Id>, S: set<Id>) returns (i: nat, j: nat)
    requires forall k :: 0 <= k < |s| ==> s[k] in S
    requires |s| > |S|
    ensures i < j < |s| && s[i] == s[j]
  {
    if Distinct(s) {
      DistinctBound(s, S);
    }
    i, j :| 0 <= i < j < |s| && s[i] == s[j];
  }

  /** A strictly increasing sequence has no repetitions. */
  lemma SortedDistinct(s: seq<Id>)
    requires StrictlySorted(s)
    ensures Distinct(s)
  {
  }

  /** An element of a sequence without repetitions does not occur before its position. */
  lemma DistinctNotInPrefix(s: seq<Id>, i: nat)
    requires Distinct(s) && i < |s|
    ensures s[i] !in s[..i]
  {
    forall k | 0 <= k < i ensures s[..i][k] != s[i] {
      assert s[..i][k] == s[k];
    }
  }

  /** The prefix one longer is the prefix extended by the next element. */
  lemma PrefixStep<T>(s: seq<T>, p: nat)
    requires p < |s|
    ensures s[..p + 1] == s[..p] + [s[p]]
  {
  }
}
