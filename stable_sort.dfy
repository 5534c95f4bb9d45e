/**
 * The list sort the balancer uses: List.sort with a reversed comparator, i.e. a stable
 * sort into non-increasing key order. Lists hold positions into the node list and
 * key[i] is the sort key of the node at position i, read once before sorting.
 */
module StableSort {
  import opened Common

  predicate SortedDesc(xs: seq<nat>, key: seq<real>)
    requires InRange(xs, |key|)
  {
    forall a, b :: 0 <= a < b < |xs| ==> key[xs[a]] >= key[xs[b]]
  }

  /** The elements whose key equals c, in their order in xs. */
  function WithKey(xs: seq<nat>, key: seq<real>, c: real): (r: seq<nat>)
    requires InRange(xs, |key|)
  {
    if xs == [] then []
    else (if key[xs[0]] == c then [xs[0]] else []) + WithKey(xs[1..], key, c)
  }

  /** Inserts x in front of the first element whose key is not larger than x's. */
  function Insert(x: nat, s: seq<nat>, key: seq<real>): (r: seq<nat>)
    requires x < |key| && InRange(s, |key|)
    ensures |r| == |s| + 1 && InRange(r, |key|)
  {
    if s == [] then [x]
    else if key[s[0]] <= key[x] then [x] + s
    else [s[0]] + Insert(x, s[1..], key)
  }

  /** Stable descending sort (insertion sort of the head into the sorted tail). */
  function SortDesc(xs: seq<nat>, key: seq<real>): (r: seq<nat>)
    requires InRange(xs, |key|)
    ensures |r| == |xs| && InRange(r, |key|)
  {
    if xs == [] then []
    else Insert(xs[0], SortDesc(xs[1..], key), key)
  }

  /** Insertion adds x and nothing else. */
  lemma {:induction false} InsertPermutes(x: nat, s: seq<nat>, key: seq<real>)
    requires x < |key| && InRange(s, |key|)
    ensures multiset(Insert(x, s, key)) == multiset(s) + multiset{x}
  {
    if s != [] {
      assert s == [s[0]] + s[1..];
      if key[s[0]] > key[x] {
        InsertPermutes(x, s[1..], key);
      }
    }
  }

  /** The sort is a permutation of its input. */
  lemma {:induction false} SortDescPermutes(xs: seq<nat>, key: seq<real>)
    requires InRange(xs, |key|)
    ensures multiset(SortDesc(xs, key)) == multiset(xs)
  {
    if xs != [] {
      assert xs == [xs[0]] + xs[1..];
      SortDescPermutes(xs[1..], key);
      InsertPermutes(xs[0], SortDesc(xs[1..], key), key);
    }
  }

  lemma MultisetMembership(r: seq<nat>, xs: seq<nat>)
    requires multiset(r) == multiset(xs)
    ensures forall y :: y in r <==> y in xs
  {
    forall y ensures y in r <==> y in xs {
      assert y in r <==> y in multiset(r);
      assert y in xs <==> y in multiset(xs);
    }
  }

  /** A head whose key is at least every key of a sorted list keeps it sorted. */
  lemma SortedCons(y: nat, t: seq<nat>, key: seq<real>)
    requires y < |key| && InRange(t, |key|) && SortedDesc(t, key)
    requires forall b :: 0 <= b < |t| ==> key[y] >= key[t[b]]
    ensures InRange([y] + t, |key|) && SortedDesc([y] + t, key)
  {
    var r := [y] + t;
    forall a, b | 0 <= a < b < |r| ensures key[r[a]] >= key[r[b]] {
      assert r[b] == t[b - 1];
      if a > 0 {
        assert r[a] == t[a - 1];
      }
    }
  }

  lemma {:induction false} InsertSorted(x: nat, s: seq<nat>, key: seq<real>)
    requires x < |key| && InRange(s, |key|) && SortedDesc(s, key)
    ensures SortedDesc(Insert(x, s, key), key)
  {
    if s == [] {
      assert Insert(x, s, key) == [x];
    } else if key[s[0]] <= key[x] {
      assert Insert(x, s, key) == [x] + s;
      SortedCons(x, s, key);
    } else {
      InsertSorted(x, s[1..], key);
      InsertSortedStep(x, s, key);
    }
  }

  /** The case of InsertSorted where x goes behind the head, given the fact for the tail. */
  lemma InsertSortedStep(x: nat, s: seq<nat>, key: seq<real>)
    requires x < |key| && InRange(s, |key|) && SortedDesc(s, key) && s != [] && key[s[0]] > key[x]
    requires SortedDesc(Insert(x, s[1..], key), key)
    ensures SortedDesc(Insert(x, s, key), key)
  {
    var t := Insert(x, s[1..], key);
    InsertPermutes(x, s[1..], key);
    MultisetMembership(t, s[1..] + [x]);
    forall b | 0 <= b < |t| ensures key[s[0]] >= key[t[b]] {
      assert t[b] in t;
      if t[b] != x {
        var k :| 0 <= k < |s[1..]| && s[1..][k] == t[b];
        assert s[k + 1] == t[b];
      }
    }
    assert Insert(x, s, key) == [s[0]] + t;
    SortedCons(s[0], t, key);
  }

  /** The sort puts the keys in non-increasing order. */
  lemma {:induction false} SortDescSorted(xs: seq<nat>, key: seq<real>)
    requires InRange(xs, |key|)
    ensures SortedDesc(SortDesc(xs, key), key)
  {
    if xs != [] {
      SortDescSorted(xs[1..], key);
      InsertSorted(xs[0], SortDesc(xs[1..], key), key);
    }
  }

  /** WithKey of a list with a head: the head if it has the key, then the rest. */
  lemma WithKeyCons(y: nat, t: seq<nat>, key: seq<real>, c: real)
    requires y < |key| && InRange(t, |key|)
    ensures WithKey([y] + t, key, c) == (if key[y] == c then [y] else []) + WithKey(t, key, c)
  {
    assert ([y] + t)[0] == y && ([y] + t)[1..] == t;
  }

  lemma {:induction false} WithKeyInsert(x: nat, s: seq<nat>, key: seq<real>, c: real)
    requires x < |key| && InRange(s, |key|)
    ensures WithKey(Insert(x, s, key), key, c) == (if key[x] == c then [x] else []) + WithKey(s, key, c)
  {
    if s == [] {
      WithKeyCons(x, [], key, c);
    } else if key[s[0]] <= key[x] {
      assert Insert(x, s, key) == [x] + s;
      WithKeyCons(x, s, key, c);
    } else {
      WithKeyInsert(x, s[1..], key, c);
      WithKeyInsertStep(x, s, key, c);
    }
  }

  /** The case of WithKeyInsert where x goes behind the head, given the fact for the tail. */
  lemma WithKeyInsertStep(x: nat, s: seq<nat>, key: seq<real>, c: real)
    requires x < |key| && InRange(s, |key|) && s != [] && key[s[0]] > key[x]
    requires WithKey(Insert(x, s[1..], key), key, c) == (if key[x] == c then [x] else []) + WithKey(s[1..], key, c)
    ensures WithKey(Insert(x, s, key), key, c) == (if key[x] == c then [x] else []) + WithKey(s, key, c)
  {
    var hx := if key[x] == c then [x] else [];
    var h0 := if key[s[0]] == c then [s[0]] else [];
    var t := Insert(x, s[1..], key);
    assert Insert(x, s, key) == [s[0]] + t;
    WithKeyCons(s[0], t, key, c);
    assert hx == [] || h0 == [];
    assert WithKey(s, key, c) == h0 + WithKey(s[1..], key, c);
  }

  /** Stability: among equal keys the sort keeps the input order. */
  lemma {:induction false} SortDescStable(xs: seq<nat>, key: seq<real>, c: real)
    requires InRange(xs, |key|)
    ensures WithKey(SortDesc(xs, key), key, c) == WithKey(xs, key, c)
  {
    if xs != [] {
      SortDescStable(xs[1..], key, c);
      WithKeyInsert(xs[0], SortDesc(xs[1..], key), key, c);
    }
  }

  lemma {:induction false} InsertDistinct(x: nat, s: seq<nat>, key: seq<real>)
    requires x < |key| && InRange(s, |key|) && Distinct(s) && x !in s
    ensures Distinct(Insert(x, s, key))
  {
    if s != [] && key[s[0]] > key[x] {
      DistinctTail(s);
      InsertDistinct(x, s[1..], key);
      InsertDistinctStep(x, s, key);
    }
  }

  /** The case of InsertDistinct where x goes behind the head, given the fact for the tail. */
  lemma InsertDistinctStep(x: nat, s: seq<nat>, key: seq<real>)
    requires x < |key| && InRange(s, |key|) && Distinct(s) && x !in s && s != [] && key[s[0]] > key[x]
    requires Distinct(Insert(x, s[1..], key))
    ensures Distinct(Insert(x, s, key))
  {
    var t := Insert(x, s[1..], key);
    DistinctTail(s);
    InsertPermutes(x, s[1..], key);
    MultisetMembership(t, s[1..] + [x]);
    assert s[0] !in t;
    assert Insert(x, s, key) == [s[0]] + t;
    ConsDistinct(s[0], t);
  }

  /** Sorting a list without repetitions gives a list without repetitions. */
  lemma {:induction false} SortDescDistinct(xs: seq<nat>, key: seq<real>)
    requires InRange(xs, |key|) && Distinct(xs)
    ensures Distinct(SortDesc(xs, key))
  {
    if xs != [] {
      var tail := xs[1..];
      assert Distinct(tail) by {
        forall i, j | 0 <= i < j < |tail| ensures tail[i] != tail[j] {
          assert tail[i] == xs[i + 1] && tail[j] == xs[j + 1];
        }
      }
      SortDescDistinct(tail, key);
      SortDescPermutes(tail, key);
      MultisetMembership(SortDesc(tail, key), tail);
      assert xs[0] !in tail by {
        forall k | 0 <= k < |tail| ensures tail[k] != xs[0] {
          assert tail[k] == xs[k + 1];
        }
      }
      InsertDistinct(xs[0], SortDesc(tail, key), key);
    }
  }
}
