/**
 * The stable sort that Array.prototype.sort performs with a numeric
 * comparator `(a, b) => key(a) - key(b)`, written as an insertion sort.
 */
module Sorting {

  predicate SortedBy<T>(s: seq<T>, key: T -> int) {
    forall i, j :: 0 <= i < j < |s| ==> key(s[i]) <= key(s[j])
  }

  /** The elements of s whose key is k, in their order in s. */
  function WithKey<T>(s: seq<T>, key: T -> int, k: int): seq<T> {
    if s == [] then [] else (if key(s[0]) == k then [s[0]] else []) + WithKey(s[1..], key, k)
  }

  /** Put x in front of the first element whose key is not below x's. */
  function Insert<T>(x: T, s: seq<T>, key: T -> int): (r: seq<T>)
    ensures multiset(r) == multiset(s) + multiset{x}
  {
    if s == [] || key(x) <= key(s[0]) then [x] + s
    else
      assert s == [s[0]] + s[1..];
      [s[0]] + Insert(x, s[1..], key)
  }

  /** An element no greater than every element of a sorted sequence can go in front of it. */
  lemma ConsSorted<T>(a: T, t: seq<T>, key: T -> int)
    requires SortedBy(t, key)
    requires forall i :: 0 <= i < |t| ==> key(a) <= key(t[i])
    ensures SortedBy([a] + t, key)
  {
    var r := [a] + t;
    forall i, j | 0 <= i < j < |r| ensures key(r[i]) <= key(r[j]) {
      assert r[j] == t[j - 1];
      if i > 0 {
        assert r[i] == t[i - 1];
      }
    }
  }

  /** Inserting into a sorted sequence keeps it sorted. */
  lemma {:induction false} InsertSorted<T>(x: T, s: seq<T>, key: T -> int)
    requires SortedBy(s, key)
    ensures SortedBy(Insert(x, s, key), key)
  {
    if s == [] || key(x) <= key(s[0]) {
      ConsSorted(x, s, key);
    } else {
      var rest := Insert(x, s[1..], key);
      InsertSorted(x, s[1..], key);
      forall i | 0 <= i < |rest| ensures key(s[0]) <= key(rest[i]) {
        assert rest[i] in multiset(rest);
        if rest[i] != x {
          assert rest[i] in multiset(s[1..]);
          var j :| 0 <= j < |s[1..]| && s[1..][j] == rest[i];
          assert s[j + 1] == rest[i];
        }
      }
      ConsSorted(s[0], rest, key);
    }
  }

  /** The sorted copy: a permutation of s, ordered by key. */
  function SortBy<T>(s: seq<T>, key: T -> int): (r: seq<T>)
    ensures multiset(r) == multiset(s) && |r| == |s|
    ensures SortedBy(r, key)
  {
    if s == [] then []
    else
      assert s == [s[0]] + s[1..];
      var t := SortBy(s[1..], key);
      InsertSorted(s[0], t, key);
      Insert(s[0], t, key)
  }

  lemma WithKeyCons<T>(a: T, t: seq<T>, key: T -> int, k: int)
    ensures WithKey([a] + t, key, k) == (if key(a) == k then [a] else []) + WithKey(t, key, k)
  {
    assert ([a] + t)[1..] == t;
  }

  /** Putting back a head whose key is below x's: the step of InsertStable. */
  lemma InsertStableStep<T>(x: T, s: seq<T>, r: seq<T>, key: T -> int, k: int)
    requires s != [] && key(s[0]) < key(x)
    requires WithKey(r, key, k) == (if key(x) == k then [x] else []) + WithKey(s[1..], key, k)
    ensures WithKey([s[0]] + r, key, k) == (if key(x) == k then [x] else []) + WithKey(s, key, k)
  {
    WithKeyCons(s[0], r, key, k);
    WithKeyCons(s[0], s[1..], key, k);
    assert s == [s[0]] + s[1..];
  }

  lemma {:induction false} InsertStable<T>(x: T, s: seq<T>, key: T -> int, k: int)
    ensures WithKey(Insert(x, s, key), key, k) == (if key(x) == k then [x] else []) + WithKey(s, key, k)
  {
    if s == [] || key(x) <= key(s[0]) {
      assert Insert(x, s, key) == [x] + s;
      WithKeyCons(x, s, key, k);
    } else {
      InsertStable(x, s[1..], key, k);
      InsertStableStep(x, s, Insert(x, s[1..], key), key, k);
    }
  }

  /** Sorting is stable: the rows sharing a key keep their input order. */
  lemma {:induction false} SortByStable<T>(s: seq<T>, key: T -> int, k: int)
    ensures WithKey(SortBy(s, key), key, k) == WithKey(s, key, k)
  {
    if s != [] {
      SortByStable(s[1..], key, k);
      InsertStable(s[0], SortBy(s[1..], key), key, k);
    }
  }

  /** Sorting input that is already in order changes nothing. */
  lemma {:induction false} SortBySortedIsIdentity<T>(s: seq<T>, key: T -> int)
    requires SortedBy(s, key)
    ensures SortBy(s, key) == s
  {
    if s != [] {
      SortBySortedIsIdentity(s[1..], key);
      assert SortBy(s[1..], key) == s[1..];
      assert s == [s[0]] + s[1..];
    }
  }

  /** A key occurs among the elements with that key exactly when some element has it. */
  lemma {:induction false} WithKeyHas<T>(s: seq<T>, key: T -> int, k: int)
    ensures WithKey(s, key, k) != [] <==> exists i :: 0 <= i < |s| && key(s[i]) == k
  {
    if s != [] {
      WithKeyHas(s[1..], key, k);
      WithKeyCons(s[0], s[1..], key, k);
      assert s == [s[0]] + s[1..];
      if exists i :: 0 <= i < |s| && key(s[i]) == k {
        var i :| 0 <= i < |s| && key(s[i]) == k;
        assert i == 0 || s[1..][i - 1] == s[i];
      }
    }
  }

  /** Equal element lists per key stay equal once a common first element is dropped. */
  lemma WithKeyDropHead<T>(a: T, t1: seq<T>, t2: seq<T>, key: T -> int, k: int)
    requires WithKey([a] + t1, key, k) == WithKey([a] + t2, key, k)
    ensures WithKey(t1, key, k) == WithKey(t2, key, k)
  {
    WithKeyCons(a, t1, key, k);
    WithKeyCons(a, t2, key, k);
    var p := if key(a) == k then [a] else [];
    assert WithKey(t1, key, k) == (p + WithKey(t1, key, k))[|p|..];
    assert WithKey(t2, key, k) == (p + WithKey(t2, key, k))[|p|..];
  }

  /** Two sorted sequences with the same elements of every key in the same order start alike. */
  lemma SameHead<T>(s1: seq<T>, s2: seq<T>, key: T -> int)
    requires SortedBy(s1, key) && SortedBy(s2, key)
    requires s1 != [] && s2 != []
    requires forall k :: WithKey(s1, key, k) == WithKey(s2, key, k)
    ensures s1[0] == s2[0]
  {
    WithKeyHas(s2, key, key(s1[0]));
    WithKeyHas(s1, key, key(s1[0]));
    WithKeyHas(s1, key, key(s2[0]));
    WithKeyHas(s2, key, key(s2[0]));
    var m := key(s1[0]);
    assert key(s2[0]) == m;
    WithKeyCons(s1[0], s1[1..], key, m);
    WithKeyCons(s2[0], s2[1..], key, m);
    assert s1 == [s1[0]] + s1[1..] && s2 == [s2[0]] + s2[1..];
    assert s1[0] == WithKey(s1, key, m)[0] == WithKey(s2, key, m)[0] == s2[0];
  }

  /**
   * A stable sort has only one possible outcome: two sorted sequences that
   * hold the same elements of every key in the same order are equal.
   */
  lemma {:induction false} StableSortUnique<T>(s1: seq<T>, s2: seq<T>, key: T -> int)
    requires SortedBy(s1, key) && SortedBy(s2, key)
    requires forall k :: WithKey(s1, key, k) == WithKey(s2, key, k)
    ensures s1 == s2
    decreases |s1|
  {
    if s1 != [] && s2 != [] {
      SameHead(s1, s2, key);
      assert s1 == [s1[0]] + s1[1..] && s2 == [s1[0]] + s2[1..];
      forall k ensures WithKey(s1[1..], key, k) == WithKey(s2[1..], key, k) {
        WithKeyDropHead(s1[0], s1[1..], s2[1..], key, k);
      }
      StableSortUnique(s1[1..], s2[1..], key);
    } else if s1 != [] {
      WithKeyHas(s1, key, key(s1[0]));
      WithKeyHas(s2, key, key(s1[0]));
    } else if s2 != [] {
      WithKeyHas(s1, key, key(s2[0]));
      WithKeyHas(s2, key, key(s2[0]));
    }
  }

  /** SortBy is that outcome: any sorted sequence that keeps each key's elements in input order is SortBy's result. */
  lemma SortByCharacterized<T>(s: seq<T>, t: seq<T>, key: T -> int)
    requires SortedBy(t, key)
    requires forall k :: WithKey(t, key, k) == WithKey(s, key, k)
    ensures SortBy(s, key) == t
  {
    forall k ensures WithKey(SortBy(s, key), key, k) == WithKey(t, key, k) {
      SortByStable(s, key, k);
    }
    StableSortUnique(SortBy(s, key), t, key);
  }
}
