/** Ordering of query results by a key, descending (`order_by("-updated_at")`,
    `order_by("-created_at")`). Ties may come out in any order, as in the database. */
module Ordering {

  /** True when the keys of the elements never increase along the sequence. */
  predicate SortedDesc<T>(s: seq<T>, key: T -> int)
  {
    forall i, j :: 0 <= i < j < |s| ==> key(s[i]) >= key(s[j])
  }

  /** Inserts x into a sequence sorted by descending key, before the first element
      whose key is not larger. */
  function Insert<T>(x: T, s: seq<T>, key: T -> int): seq<T>
  {
    if s == [] || key(x) >= key(s[0]) then [x] + s
    else [s[0]] + Insert(x, s[1..], key)
  }

  /** The elements of s ordered by descending key (an insertion sort). */
  function SortDesc<T>(s: seq<T>, key: T -> int): seq<T>
  {
    if s == [] then [] else Insert(s[0], SortDesc(s[1..], key), key)
  }

  /** Inserting an element whose key is at most c into a sequence whose keys are all
      at most c gives a sequence whose keys are all at most c. */
  lemma {:induction false} InsertBounded<T>(x: T, s: seq<T>, key: T -> int, c: int)
    requires key(x) <= c
    requires forall k :: 0 <= k < |s| ==> key(s[k]) <= c
    ensures forall k :: 0 <= k < |Insert(x, s, key)| ==> key(Insert(x, s, key)[k]) <= c
  {
    if s != [] && key(x) < key(s[0]) {
      InsertBounded(x, s[1..], key, c);
      var r := Insert(x, s, key);
      forall k | 0 <= k < |r| ensures key(r[k]) <= c {
        if k > 0 {
          assert r[k] == Insert(x, s[1..], key)[k - 1];
        }
      }
    }
  }

  /** Insertion adds exactly the one element. */
  lemma {:induction false} InsertCounts<T>(x: T, s: seq<T>, key: T -> int)
    ensures multiset(Insert(x, s, key)) == multiset(s) + multiset{x}
  {
    if s != [] && key(x) < key(s[0]) {
      InsertCounts(x, s[1..], key);
      assert s == [s[0]] + s[1..];
    }
  }

  /** Insertion keeps the order. */
  lemma {:induction false} InsertSorted<T>(x: T, s: seq<T>, key: T -> int)
    requires SortedDesc(s, key)
    ensures SortedDesc(Insert(x, s, key), key)
  {
    if s != [] && key(x) < key(s[0]) {
      var rest := Insert(x, s[1..], key);
      InsertSorted(x, s[1..], key);
      InsertBounded(x, s[1..], key, key(s[0]));
      var r := [s[0]] + rest;
      assert r == Insert(x, s, key);
      forall i, j | 0 <= i < j < |r| ensures key(r[i]) >= key(r[j]) {
        assert r[j] == rest[j - 1];
        if i > 0 {
          assert r[i] == rest[i - 1];
        }
      }
    }
  }

  /** Two sequences with the same multiset of elements have the same elements. */
  lemma SameMembers<T>(a: seq<T>, b: seq<T>)
    requires multiset(a) == multiset(b)
    ensures forall k :: 0 <= k < |a| ==> a[k] in b
    ensures forall k :: 0 <= k < |b| ==> b[k] in a
  {
    forall k | 0 <= k < |a| ensures a[k] in b {
      assert a[k] in multiset(a);
    }
    forall k | 0 <= k < |b| ensures b[k] in a {
      assert b[k] in multiset(b);
    }
  }

  /** The sort orders by descending key and is a permutation of its input. */
  lemma {:induction false} SortDescSorted<T>(s: seq<T>, key: T -> int)
    ensures SortedDesc(SortDesc(s, key), key)
    ensures multiset(SortDesc(s, key)) == multiset(s)
  {
    if s != [] {
      var rest := SortDesc(s[1..], key);
      SortDescSorted(s[1..], key);
      InsertSorted(s[0], rest, key);
      InsertCounts(s[0], rest, key);
      assert s == [s[0]] + s[1..];
    }
  }

  /** The sort keeps exactly the elements of its input. */
  lemma SortDescMembers<T>(s: seq<T>, key: T -> int)
    ensures forall k :: 0 <= k < |s| ==> s[k] in SortDesc(s, key)
    ensures forall k :: 0 <= k < |SortDesc(s, key)| ==> SortDesc(s, key)[k] in s
  {
    SortDescSorted(s, key);
    SameMembers(s, SortDesc(s, key));
  }
}
