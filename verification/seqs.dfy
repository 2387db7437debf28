/** Generic sequence operations: first-match search, concat-map, filter, a
    stable insertion sort by an integer key, and the partition of a sequence
    into its sorted matching elements followed by the others. */
module Seqs {
  import opened Wrappers

  /** Index of the first element of `s` satisfying `p`, or None when no element does. */
  function FirstIndex<T>(s: seq<T>, p: T -> bool): (r: Option<nat>)
    ensures r.Some? ==> r.value < |s| && p(s[r.value])
    ensures r.Some? ==> forall j :: 0 <= j < r.value ==> !p(s[j])
    ensures r.None? <==> forall j :: 0 <= j < |s| ==> !p(s[j])
    decreases |s|
  {
    if |s| == 0 then None
    else if p(s[0]) then Some(0)
    else
      match FirstIndex(s[1..], p)
      case None => None
      case Some(k) => Some(k + 1)
  }

  /** The concatenation, in order, of `f` applied to each element of `s`. */
  function ConcatMap<T, U>(s: seq<T>, f: T -> seq<U>): seq<U>
    decreases |s|
  {
    if s == [] then []
    else ConcatMap(s[..|s| - 1], f) + f(s[|s| - 1])
  }

  /** Mapping distributes over concatenation: each element's image stays in
      the element's place. */
  lemma {:induction false} ConcatMapAppend<T, U>(a: seq<T>, b: seq<T>, f: T -> seq<U>)
    ensures ConcatMap(a + b, f) == ConcatMap(a, f) + ConcatMap(b, f)
    decreases |b|
  {
    if b == [] {
      assert a + b == a;
    } else {
      var n := |b| - 1;
      var ab := a + b;
      assert ab[..|ab| - 1] == a + b[..n];
      assert ab[|ab| - 1] == b[n];
      ConcatMapAppend(a, b[..n], f);
    }
  }

  /** An element is in the result exactly when it is in the image of some
      element of `s`. */
  lemma {:induction false} ConcatMapMembership<T, U>(s: seq<T>, f: T -> seq<U>, x: U)
    ensures x in ConcatMap(s, f) <==> exists i :: 0 <= i < |s| && x in f(s[i])
    decreases |s|
  {
    if s != [] {
      var n := |s| - 1;
      ConcatMapMembership(s[..n], f, x);
      if x in ConcatMap(s[..n], f) {
        var i :| 0 <= i < n && x in f(s[..n][i]);
        assert x in f(s[i]);
      }
      if i :| 0 <= i < |s| && x in f(s[i]) {
        if i < n {
          assert x in f(s[..n][i]);
        }
      }
    }
  }

  /** The elements of `s` satisfying `p`, in their order. */
  function Filter<T>(s: seq<T>, p: T -> bool): seq<T>
    decreases |s|
  {
    if s == [] then []
    else Filter(s[..|s| - 1], p) + (if p(s[|s| - 1]) then [s[|s| - 1]] else [])
  }

  /** Filtering a single element keeps it exactly when it satisfies `p`. */
  lemma FilterSingleton<T>(x: T, p: T -> bool)
    ensures Filter([x], p) == if p(x) then [x] else []
  {
    assert [x][..0] == [];
  }

  /** Filtering distributes over concatenation. */
  lemma {:induction false} FilterAppend<T>(a: seq<T>, b: seq<T>, p: T -> bool)
    ensures Filter(a + b, p) == Filter(a, p) + Filter(b, p)
    decreases |b|
  {
    if b == [] {
      assert a + b == a;
    } else {
      var n := |b| - 1;
      var ab := a + b;
      assert ab[..|ab| - 1] == a + b[..n];
      assert ab[|ab| - 1] == b[n];
      FilterAppend(a, b[..n], p);
    }
  }

  /** Filtering a sequence all of whose elements satisfy `p` keeps it whole. */
  lemma {:induction false} FilterAll<T>(s: seq<T>, p: T -> bool)
    requires forall i :: 0 <= i < |s| ==> p(s[i])
    ensures Filter(s, p) == s
    decreases |s|
  {
    if s != [] {
      var n := |s| - 1;
      assert forall i :: 0 <= i < n ==> s[..n][i] == s[i];
      FilterAll(s[..n], p);
      assert s[..n] + [s[n]] == s;
    }
  }

  /** Filtering a sequence none of whose elements satisfies `p` leaves nothing. */
  lemma {:induction false} FilterNone<T>(s: seq<T>, p: T -> bool)
    requires forall i :: 0 <= i < |s| ==> !p(s[i])
    ensures Filter(s, p) == []
    decreases |s|
  {
    if s != [] {
      var n := |s| - 1;
      assert forall i :: 0 <= i < n ==> s[..n][i] == s[i];
      FilterNone(s[..n], p);
    }
  }

  /** An element goes to exactly one of the two sides of a partition. */
  lemma {:induction false} FilterPartition<T>(s: seq<T>, p: T -> bool, q: T -> bool)
    requires forall x :: q(x) == !p(x)
    ensures multiset(Filter(s, p)) + multiset(Filter(s, q)) == multiset(s)
    decreases |s|
  {
    if s != [] {
      var n := |s| - 1;
      FilterPartition(s[..n], p, q);
      assert s == s[..n] + [s[n]];
    }
  }

  /** Elements listed in ascending `key`. */
  predicate Ascending<T>(s: seq<T>, key: T -> int) {
    forall i, j :: 0 <= i < j < |s| ==> key(s[i]) <= key(s[j])
  }

  /** Insert `x` into `s` after every element of no greater key. */
  function InsertByKey<T>(s: seq<T>, x: T, key: T -> int): (r: seq<T>)
    ensures multiset(r) == multiset(s) + multiset{x}
    ensures forall y :: y in r ==> y == x || y in s
    ensures Ascending(s, key) ==> Ascending(r, key)
    decreases |s|
  {
    if s == [] then [x]
    else if key(s[|s| - 1]) <= key(x) then
      AscendingSnoc(s, x, key);
      s + [x]
    else
      var n := |s| - 1;
      var rest := InsertByKey(s[..n], x, key);
      assert s == s[..n] + [s[n]];
      AscendingInit(s, key);
      AscendingBelow(s, rest, x, key);
      rest + [s[n]]
  }

  /** A prefix of an ascending sequence is ascending. */
  lemma AscendingInit<T>(s: seq<T>, key: T -> int)
    requires s != []
    ensures Ascending(s, key) ==> Ascending(s[..|s| - 1], key)
  {
    if Ascending(s, key) {
      var n := |s| - 1;
      forall i, j | 0 <= i < j < n
        ensures key(s[..n][i]) <= key(s[..n][j])
      {
        assert s[..n][i] == s[i] && s[..n][j] == s[j];
      }
    }
  }

  /** Appending an element no smaller than every other keeps the order. */
  lemma AscendingSnoc<T>(s: seq<T>, x: T, key: T -> int)
    requires s != [] && key(s[|s| - 1]) <= key(x)
    ensures Ascending(s, key) ==> Ascending(s + [x], key)
  {
  }

  /** The step of insertion below the last element `s[n]`: when `rest`
      holds only `x` (smaller than `s[n]`) and elements of `s[..n]`, it stays
      ascending with `s[n]` appended. */
  lemma AscendingBelow<T>(s: seq<T>, rest: seq<T>, x: T, key: T -> int)
    requires s != [] && key(x) < key(s[|s| - 1])
    requires forall y :: y in rest ==> y == x || y in s[..|s| - 1]
    requires Ascending(s[..|s| - 1], key) ==> Ascending(rest, key)
    ensures Ascending(s, key) ==> Ascending(rest + [s[|s| - 1]], key)
  {
    if Ascending(s, key) {
      var n := |s| - 1;
      AscendingInit(s, key);
      var r := rest + [s[n]];
      forall i, j | 0 <= i < j < |r|
        ensures key(r[i]) <= key(r[j])
      {
        if j == |rest| {
          assert r[i] == rest[i] && rest[i] in rest;
          if rest[i] != x {
            var k :| 0 <= k < n && s[..n][k] == rest[i];
            assert s[k] == rest[i];
          }
        } else {
          assert r[i] == rest[i] && r[j] == rest[j];
        }
      }
    }
  }

  /** The elements of `s` in ascending `key`, equal keys in their order
      (insertion sort). */
  function SortByKey<T>(s: seq<T>, key: T -> int): (r: seq<T>)
    ensures multiset(r) == multiset(s)
    ensures Ascending(r, key)
    decreases |s|
  {
    if s == [] then []
    else
      assert s == s[..|s| - 1] + [s[|s| - 1]];
      InsertByKey(SortByKey(s[..|s| - 1], key), s[|s| - 1], key)
  }

  /** Sorting elements already in ascending order changes nothing. */
  lemma {:induction false} SortAscending<T>(s: seq<T>, key: T -> int)
    requires Ascending(s, key)
    ensures SortByKey(s, key) == s
    decreases |s|
  {
    if s != [] {
      var n := |s| - 1;
      AscendingInit(s, key);
      SortAscending(s[..n], key);
      InsertLast(s, key);
    }
  }

  /** In an ascending sequence the last element is inserted after all the
      others. */
  lemma InsertLast<T>(s: seq<T>, key: T -> int)
    requires s != [] && Ascending(s, key)
    ensures InsertByKey(s[..|s| - 1], s[|s| - 1], key) == s
  {
    var n := |s| - 1;
    if n > 0 {
      assert s[..n][n - 1] == s[n - 1];
      assert key(s[n - 1]) <= key(s[n]);
    }
    assert s[..n] + [s[n]] == s;
  }

  /** Every element the filter keeps satisfies `p`. */
  lemma {:induction false} FilterSatisfies<T>(s: seq<T>, p: T -> bool)
    ensures forall i :: 0 <= i < |Filter(s, p)| ==> p(Filter(s, p)[i])
    decreases |s|
  {
    if s != [] {
      FilterSatisfies(s[..|s| - 1], p);
    }
  }

  /** Sorting keeps the elements, so it keeps a property all of them have. */
  lemma SortKeeps<T>(s: seq<T>, p: T -> bool, key: T -> int)
    requires forall i :: 0 <= i < |s| ==> p(s[i])
    ensures forall i :: 0 <= i < |SortByKey(s, key)| ==> p(SortByKey(s, key)[i])
  {
    var r := SortByKey(s, key);
    forall i | 0 <= i < |r|
      ensures p(r[i])
    {
      assert r[i] in multiset(r);
      var k :| 0 <= k < |s| && s[k] == r[i];
    }
  }

  /** The elements of `s` satisfying `p`, sorted by `key`, followed by the
      others in their order. */
  function SortedPartition<T>(s: seq<T>, p: T -> bool, q: T -> bool, key: T -> int): seq<T> {
    SortByKey(Filter(s, p), key) + Filter(s, q)
  }

  /** The sorted partition is a permutation of `s`. */
  lemma SortedPartitionPermutes<T>(s: seq<T>, p: T -> bool, q: T -> bool, key: T -> int)
    requires forall x :: q(x) == !p(x)
    ensures multiset(SortedPartition(s, p, q, key)) == multiset(s)
  {
    FilterPartition(s, p, q);
  }

  /** In the sorted partition every element satisfying `p` comes before
      every other, and those elements are in ascending `key`. */
  lemma SortedPartitionOrder<T>(s: seq<T>, p: T -> bool, q: T -> bool, key: T -> int)
    requires forall x :: q(x) == !p(x)
    ensures var r := SortedPartition(s, p, q, key);
      forall i, j :: 0 <= i < j < |r| && p(r[j]) ==> p(r[i]) && key(r[i]) <= key(r[j])
  {
    FilterSatisfies(s, p);
    FilterSatisfies(s, q);
    SortKeeps(Filter(s, p), p, key);
    PartitionOrder(SortByKey(Filter(s, p), key), Filter(s, q), p, q, key);
  }

  /** The elements not satisfying `p` keep their relative order. */
  lemma SortedPartitionKeepsOthers<T>(s: seq<T>, p: T -> bool, q: T -> bool, key: T -> int)
    requires forall x :: q(x) == !p(x)
    ensures Filter(SortedPartition(s, p, q, key), q) == Filter(s, q)
  {
    var sorted := SortByKey(Filter(s, p), key);
    var others := Filter(s, q);
    FilterSatisfies(s, p);
    SortKeeps(Filter(s, p), p, key);
    FilterExcluded(sorted, p, q);
    FilterSatisfies(s, q);
    FilterAll(others, q);
    FilterAppend(sorted, others, q);
  }

  /** Filtering by the complement of a predicate every element satisfies keeps nothing. */
  lemma FilterExcluded<T>(s: seq<T>, p: T -> bool, q: T -> bool)
    requires forall x :: q(x) == !p(x)
    requires forall i :: 0 <= i < |s| ==> p(s[i])
    ensures Filter(s, q) == []
  {
    forall i | 0 <= i < |s|
      ensures !q(s[i])
    {
      assert p(s[i]);
    }
    FilterNone(s, q);
  }

  /** Of three elements, a middle one satisfying `p` moves in front of the
      two that do not. */
  lemma SortedPartitionMovesMiddle<T>(a: T, b: T, c: T, p: T -> bool, q: T -> bool, key: T -> int)
    requires forall x :: q(x) == !p(x)
    requires q(a) && p(b) && q(c)
    ensures SortedPartition([a, b, c], p, q, key) == [b, a, c]
  {
    FilterThree(a, b, c, p);
    assert Filter([a, b, c], p) == [b];
    FilterThree(a, b, c, q);
    assert Filter([a, b, c], q) == [a, c];
    SortAscending([b], key);
  }

  /** Filtering three elements, one by one. */
  lemma FilterThree<T>(a: T, b: T, c: T, p: T -> bool)
    ensures Filter([a, b, c], p) ==
      (if p(a) then [a] else []) + (if p(b) then [b] else []) + (if p(c) then [c] else [])
  {
    assert Filter([a], p) == (if p(a) then [a] else []) by {
      assert [a][..0] == [];
    }
    assert Filter([a, b], p) == Filter([a], p) + (if p(b) then [b] else []) by {
      assert [a, b][..1] == [a];
    }
    assert Filter([a, b, c], p) == Filter([a, b], p) + (if p(c) then [c] else []) by {
      assert [a, b, c][..2] == [a, b];
    }
  }

  /** A sorted run of `p` elements followed by `q` elements: every `p`
      element precedes every `q` element, and the `p` elements ascend. */
  lemma PartitionOrder<T>(sorted: seq<T>, others: seq<T>, p: T -> bool, q: T -> bool, key: T -> int)
    requires forall x :: q(x) == !p(x)
    requires Ascending(sorted, key)
    requires forall i :: 0 <= i < |sorted| ==> p(sorted[i])
    requires forall i :: 0 <= i < |others| ==> q(others[i])
    ensures var r := sorted + others;
      forall i, j :: 0 <= i < j < |r| && p(r[j]) ==> p(r[i]) && key(r[i]) <= key(r[j])
  {
    var r := sorted + others;
    forall i, j | 0 <= i < j < |r| && p(r[j])
      ensures p(r[i]) && key(r[i]) <= key(r[j])
    {
      if j >= |sorted| {
        assert false;
      }
      assert r[i] == sorted[i] && r[j] == sorted[j];
    }
  }
}
