/**
 * Grouping rows by a key, as the pipeline does with
 * `(groups[k] ??= []).push(r)` followed by `Object.values(groups)`, and the
 * order in which JavaScript enumerates the keys of such an object.
 */
module Grouping {
  import opened Cells
  import opened Sorting

  predicate Distinct<K(==)>(s: seq<K>) {
    forall i, j :: 0 <= i < j < |s| ==> s[i] != s[j]
  }

  /** The first two entries of a duplicate-free list are two different members of it. */
  lemma FirstTwo<K>(s: seq<K>)
    requires Distinct(s) && |s| >= 2
    ensures s[0] in s && s[1] in s && s[0] != s[1]
  {
  }

  /** A duplicate-free list whose only member is b. */
  lemma OnlyMember<K>(s: seq<K>, b: K)
    requires Distinct(s) && forall x :: x in s <==> x == b
    ensures s == [b]
  {
    assert b in s;
    assert s[0] in s;
    if |s| >= 2 {
      FirstTwo(s);
      assert false;
    }
  }

  /** Dropping the first element of a sequence without repetitions leaves one, without that element. */
  lemma DistinctTail<K>(s: seq<K>)
    requires Distinct(s) && s != []
    ensures Distinct(s[1..]) && s[0] !in s[1..]
  {
    forall i, j | 0 <= i < j < |s[1..]| ensures s[1..][i] != s[1..][j] {
      assert s[1..][i] == s[i + 1] && s[1..][j] == s[j + 1];
    }
    forall i | 0 <= i < |s[1..]| ensures s[1..][i] != s[0] {
      assert s[1..][i] == s[i + 1];
    }
  }

  /** The elements of s that satisfy p, in order. */
  function Filter<T>(s: seq<T>, p: T -> bool): (r: seq<T>)
    ensures |r| <= |s|
    ensures forall i :: 0 <= i < |r| ==> p(r[i])
  {
    if s == [] then []
    else Filter(s[..|s| - 1], p) + (if p(s[|s| - 1]) then [s[|s| - 1]] else [])
  }

  /** The filtered elements are the elements of s that pass p. */
  lemma {:induction false} FilterHas<T>(s: seq<T>, p: T -> bool, x: T)
    ensures x in Filter(s, p) <==> x in s && p(x)
  {
    if s != [] {
      FilterHas(s[..|s| - 1], p, x);
      assert s == s[..|s| - 1] + [s[|s| - 1]];
    }
  }

  /** The elements of s whose key is k, in order: one group. */
  function Select<T, K(==)>(s: seq<T>, key: T -> K, k: K): (r: seq<T>)
    ensures |r| <= |s|
    ensures forall i :: 0 <= i < |r| ==> key(r[i]) == k
  {
    if s == [] then []
    else Select(s[..|s| - 1], key, k) + (if key(s[|s| - 1]) == k then [s[|s| - 1]] else [])
  }

  /** The group of k holds the elements of s whose key is k. */
  lemma {:induction false} SelectHas<T, K>(s: seq<T>, key: T -> K, k: K, x: T)
    ensures x in Select(s, key, k) <==> x in s && key(x) == k
  {
    if s != [] {
      SelectHas(s[..|s| - 1], key, k, x);
      assert s == s[..|s| - 1] + [s[|s| - 1]];
    }
  }

  /** The distinct keys of s in order of first occurrence. */
  function Keys<T, K(==)>(s: seq<T>, key: T -> K): (ks: seq<K>)
    ensures Distinct(ks)
  {
    if s == [] then []
    else
      var ks := Keys(s[..|s| - 1], key);
      if key(s[|s| - 1]) in ks then ks else ks + [key(s[|s| - 1])]
  }

  /** A key is listed exactly when some element of s has it. */
  lemma {:induction false} KeysHas<T, K>(s: seq<T>, key: T -> K, k: K)
    ensures k in Keys(s, key) <==> exists i :: 0 <= i < |s| && key(s[i]) == k
  {
    if s != [] {
      var init := s[..|s| - 1];
      KeysHas(init, key, k);
      if exists i :: 0 <= i < |s| && key(s[i]) == k {
        var i :| 0 <= i < |s| && key(s[i]) == k;
        if i < |init| {
          assert key(init[i]) == k;
        }
      }
    }
  }

  /** Every element's key is listed. */
  lemma KeysCover<T, K>(s: seq<T>, key: T -> K)
    ensures forall i :: 0 <= i < |s| ==> key(s[i]) in Keys(s, key)
  {
    forall i | 0 <= i < |s| ensures key(s[i]) in Keys(s, key) {
      KeysHas(s, key, key(s[i]));
    }
  }

  /** Every element of g has key k. */
  predicate Keyed<T, K(==)>(g: seq<T>, key: T -> K, k: K) {
    forall i :: 0 <= i < |g| ==> key(g[i]) == k
  }

  /** A rearrangement of a group keeps its key. */
  lemma KeyedPerm<T, K>(a: seq<T>, b: seq<T>, key: T -> K, k: K)
    requires multiset(a) == multiset(b) && Keyed(b, key, k)
    ensures Keyed(a, key, k)
  {
    forall i | 0 <= i < |a| ensures key(a[i]) == k {
      assert a[i] in multiset(b);
      var j :| 0 <= j < |b| && b[j] == a[i];
    }
  }

  /** The groups of s taken in the given key order and laid end to end. */
  function Gather<T, K(==)>(s: seq<T>, key: T -> K, order: seq<K>): seq<T> {
    if order == [] then [] else Select(s, key, order[0]) + Gather(s, key, order[1..])
  }

  /** Each group of s, in the given key order, transformed by f and laid end to end. */
  function GroupMap<T, K(==)>(s: seq<T>, key: T -> K, order: seq<K>, f: (K, seq<T>) -> seq<T>): seq<T> {
    if order == [] then [] else f(order[0], Select(s, key, order[0])) + GroupMap(s, key, order[1..], f)
  }

  // ------------------------------------------------------------ lemmas

  lemma SelectSnoc<T, K>(s: seq<T>, x: T, key: T -> K, k: K)
    ensures Select(s + [x], key, k) == Select(s, key, k) + (if key(x) == k then [x] else [])
  {
    assert (s + [x])[..|s|] == s;
  }

  lemma {:induction false} SelectAppend<T, K>(a: seq<T>, b: seq<T>, key: T -> K, k: K)
    ensures Select(a + b, key, k) == Select(a, key, k) + Select(b, key, k)
    decreases |b|
  {
    if b == [] {
      assert a + b == a;
    } else {
      var b' := b[..|b| - 1];
      var x := b[|b| - 1];
      assert a + b == (a + b') + [x];
      assert b == b' + [x];
      SelectAppend(a, b', key, k);
      SelectSnoc(a + b', x, key, k);
      SelectSnoc(b', x, key, k);
    }
  }

  /** A group whose elements all have key j: selecting key k keeps all of it or none. */
  lemma {:induction false} SelectKeyed<T, K>(g: seq<T>, key: T -> K, j: K, k: K)
    requires Keyed(g, key, j)
    ensures Select(g, key, k) == if j == k then g else []
    decreases |g|
  {
    if g != [] {
      var g' := g[..|g| - 1];
      assert Keyed(g', key, j) by {
        forall i | 0 <= i < |g'| ensures key(g'[i]) == j { assert g'[i] == g[i]; }
      }
      SelectKeyed(g', key, j, k);
      assert g == g' + [g[|g| - 1]];
    }
  }

  lemma {:induction false} SelectIsKeyed<T, K>(s: seq<T>, key: T -> K, k: K)
    ensures Keyed(Select(s, key, k), key, k)
  {
    var g := Select(s, key, k);
    forall i | 0 <= i < |g| ensures key(g[i]) == k { assert g[i] in g; }
  }

  /** The conditions of SelectGroupMap hold for the keys after the first. */
  lemma KeyPreservingTail<T, K>(s: seq<T>, key: T -> K, order: seq<K>, f: (K, seq<T>) -> seq<T>)
    requires order != [] && Distinct(order)
    requires forall i :: 0 <= i < |order| ==> Keyed(f(order[i], Select(s, key, order[i])), key, order[i])
    ensures Distinct(order[1..]) && order[0] !in order[1..]
    ensures forall i :: 0 <= i < |order[1..]| ==> Keyed(f(order[1..][i], Select(s, key, order[1..][i])), key, order[1..][i])
    ensures Keyed(f(order[0], Select(s, key, order[0])), key, order[0])
  {
    DistinctTail(order);
    forall i | 0 <= i < |order[1..]|
      ensures Keyed(f(order[1..][i], Select(s, key, order[1..][i])), key, order[1..][i])
    {
      assert order[1..][i] == order[i + 1];
    }
  }

  /** One group in front of the others: the step of SelectGroupMap. */
  lemma SelectGroupMapStep<T, K>(head: seq<T>, tail: seq<T>, key: T -> K, order: seq<K>, k: K, fk: seq<T>)
    requires order != [] && order[0] !in order[1..] && Keyed(head, key, order[0])
    requires Select(tail, key, k) == if k in order[1..] then fk else []
    requires k == order[0] ==> head == fk
    ensures Select(head + tail, key, k) == if k in order then fk else []
  {
    SelectAppend(head, tail, key, k);
    SelectKeyed(head, key, order[0], k);
    InHeadOrTail(order, k);
  }

  /** Regrouping the concatenated, key-preserving transforms recovers each transformed group. */
  lemma {:induction false} SelectGroupMap<T, K>(s: seq<T>, key: T -> K, order: seq<K>, f: (K, seq<T>) -> seq<T>, k: K)
    requires Distinct(order)
    requires forall i :: 0 <= i < |order| ==> Keyed(f(order[i], Select(s, key, order[i])), key, order[i])
    ensures Select(GroupMap(s, key, order, f), key, k) == if k in order then f(k, Select(s, key, k)) else []
    decreases |order|
  {
    if order != [] {
      var head := f(order[0], Select(s, key, order[0]));
      KeyPreservingTail(s, key, order, f);
      assert GroupMap(s, key, order, f) == head + GroupMap(s, key, order[1..], f);
      SelectGroupMap(s, key, order[1..], f, k);
      SelectGroupMapStep(head, GroupMap(s, key, order[1..], f), key, order, k, f(k, Select(s, key, k)));
    }
  }

  lemma {:induction false} GroupMapSub<T, K>(s: seq<T>, key: T -> K, order: seq<K>, f: (K, seq<T>) -> seq<T>)
    requires forall i :: 0 <= i < |order| ==> multiset(f(order[i], Select(s, key, order[i]))) <= multiset(Select(s, key, order[i]))
    ensures multiset(GroupMap(s, key, order, f)) <= multiset(Gather(s, key, order))
    decreases |order|
  {
    if order != [] {
      assert forall i :: 0 <= i < |order[1..]| ==> order[1..][i] == order[i + 1];
      GroupMapSub(s, key, order[1..], f);
      assert multiset(f(order[0], Select(s, key, order[0]))) <= multiset(Select(s, key, order[0]));
    }
  }

  function Project<T, U>(s: seq<T>, proj: T -> U): (r: seq<U>)
    ensures |r| == |s|
    ensures forall i :: 0 <= i < |s| ==> r[i] == proj(s[i])
  {
    seq(|s|, i requires 0 <= i < |s| => proj(s[i]))
  }

  /** A loop applying proj to each element in turn. */
  method ProjectEach<T, U>(s: seq<T>, proj: T -> U) returns (r: seq<U>)
    ensures r == Project(s, proj)
  {
    r := [];
    for i := 0 to |s|
      invariant |r| == i
      invariant forall j :: 0 <= j < i ==> r[j] == proj(s[j])
    {
      r := r + [proj(s[i])];
    }
  }

  lemma ProjectAppend<T, U>(a: seq<T>, b: seq<T>, proj: T -> U)
    ensures Project(a + b, proj) == Project(a, proj) + Project(b, proj)
  {
  }

  lemma {:induction false} GroupMapProjectPerm<T, K, U>(s: seq<T>, key: T -> K, order: seq<K>, f: (K, seq<T>) -> seq<T>, proj: T -> U)
    requires forall i :: 0 <= i < |order| ==>
      multiset(Project(f(order[i], Select(s, key, order[i])), proj)) == multiset(Project(Select(s, key, order[i]), proj))
    ensures multiset(Project(GroupMap(s, key, order, f), proj)) == multiset(Project(Gather(s, key, order), proj))
    decreases |order|
  {
    if order != [] {
      assert forall i :: 0 <= i < |order[1..]| ==> order[1..][i] == order[i + 1];
      GroupMapProjectPerm(s, key, order[1..], f, proj);
      var g := Select(s, key, order[0]);
      assert multiset(Project(f(order[0], g), proj)) == multiset(Project(g, proj));
      ProjectAppend(f(order[0], g), GroupMap(s, key, order[1..], f), proj);
      ProjectAppend(g, Gather(s, key, order[1..]), proj);
    }
  }

  /** Removing the element at j removes one occurrence of it. */
  lemma RemoveAt<T>(b: seq<T>, j: int)
    requires 0 <= j < |b|
    ensures multiset(b[..j] + b[j + 1..]) == multiset(b) - multiset{b[j]}
  {
    assert b == b[..j] + [b[j]] + b[j + 1..];
  }

  lemma MultisetMiddle<U>(a: seq<U>, m: seq<U>, c: seq<U>)
    ensures multiset(a + m + c) == multiset(a + c) + multiset(m)
  {
  }

  /** Projecting without the element at j loses exactly its image. */
  lemma ProjectRemoveAt<T, U>(b: seq<T>, j: int, proj: T -> U)
    requires 0 <= j < |b|
    ensures multiset(Project(b, proj)) == multiset(Project(b[..j] + b[j + 1..], proj)) + multiset{proj(b[j])}
  {
    var p1, pm, p2 := Project(b[..j], proj), Project([b[j]], proj), Project(b[j + 1..], proj);
    assert b == b[..j] + [b[j]] + b[j + 1..];
    ProjectAppend(b[..j] + [b[j]], b[j + 1..], proj);
    ProjectAppend(b[..j], [b[j]], proj);
    ProjectAppend(b[..j], b[j + 1..], proj);
    assert pm == [proj(b[j])];
    assert Project(b, proj) == p1 + pm + p2;
    MultisetMiddle(p1, pm, p2);
  }

  /** Removing the first element of a and a matching element of b keeps them permutations. */
  lemma RemoveMatched<T>(a: seq<T>, b: seq<T>, j: int)
    requires multiset(a) == multiset(b) && a != [] && 0 <= j < |b| && b[j] == a[0]
    ensures multiset(a[1..]) == multiset(b[..j] + b[j + 1..])
  {
    RemoveAt(b, j);
    assert a == [a[0]] + a[1..];
    assert multiset(a) == multiset{a[0]} + multiset(a[1..]);
  }

  /** Projecting a non-empty sequence: the head's image, then the tail's. */
  lemma ProjectCons<T, U>(a: seq<T>, proj: T -> U)
    requires a != []
    ensures Project(a, proj) == [proj(a[0])] + Project(a[1..], proj)
  {
  }

  /** Matching the first element of a with b[j]: the rest projected alike gives the whole projected alike. */
  lemma ProjectPermStep<T, U>(a: seq<T>, b: seq<T>, j: int, proj: T -> U)
    requires a != [] && 0 <= j < |b| && b[j] == a[0]
    requires multiset(Project(a[1..], proj)) == multiset(Project(b[..j] + b[j + 1..], proj))
    ensures multiset(Project(a, proj)) == multiset(Project(b, proj))
  {
    var pa, pb, y := Project(a[1..], proj), Project(b[..j] + b[j + 1..], proj), proj(a[0]);
    ProjectCons(a, proj);
    assert multiset(Project(a, proj)) == multiset(pa) + multiset{y};
    ProjectRemoveAt(b, j, proj);
    assert multiset(Project(b, proj)) == multiset(pb) + multiset{y};
  }

  /** Projecting two permutations of each other gives permutations of each other. */
  lemma {:induction false} ProjectPerm<T, U>(a: seq<T>, b: seq<T>, proj: T -> U)
    requires multiset(a) == multiset(b)
    ensures multiset(Project(a, proj)) == multiset(Project(b, proj))
    decreases |a|
  {
    if a != [] {
      assert a[0] in multiset(b);
      var j :| 0 <= j < |b| && b[j] == a[0];
      RemoveMatched(a, b, j);
      ProjectPerm(a[1..], b[..j] + b[j + 1..], proj);
      ProjectPermStep(a, b, j, proj);
    }
  }

  lemma {:induction false} GatherEmpty<T, K>(key: T -> K, order: seq<K>)
    ensures Gather([], key, order) == []
    decreases |order|
  {
    if order != [] { GatherEmpty(key, order[1..]); }
  }

  /** x once when b holds, otherwise nothing. */
  function Once<T>(x: T, b: bool): multiset<T> {
    if b then multiset{x} else multiset{}
  }

  lemma OnceSplit<T>(a: multiset<T>, b: multiset<T>, x: T, p: bool, q: bool)
    requires !(p && q)
    ensures (a + Once(x, p)) + (b + Once(x, q)) == (a + b) + Once(x, p || q)
  {
  }

  /** A key is in a non-empty order exactly when it is its head or in its tail. */
  lemma InHeadOrTail<K>(order: seq<K>, k: K)
    requires order != []
    ensures k in order <==> k == order[0] || k in order[1..]
  {
    assert order == [order[0]] + order[1..];
  }

  /** Gathering along order from what gathering along its tail gives. */
  lemma GatherSnocStep<T, K>(s: seq<T>, x: T, key: T -> K, order: seq<K>)
    requires order != [] && Distinct(order)
    requires multiset(Gather(s + [x], key, order[1..])) == multiset(Gather(s, key, order[1..])) + Once(x, key(x) in order[1..])
    ensures multiset(Gather(s + [x], key, order)) == multiset(Gather(s, key, order)) + Once(x, key(x) in order)
  {
    DistinctTail(order);
    SelectSnoc(s, x, key, order[0]);
    var a, b := Select(s, key, order[0]), Gather(s, key, order[1..]);
    assert Gather(s + [x], key, order) == Select(s + [x], key, order[0]) + Gather(s + [x], key, order[1..]);
    assert Gather(s, key, order) == a + b;
    assert multiset(Select(s + [x], key, order[0])) == multiset(a) + Once(x, key(x) == order[0]);
    InHeadOrTail(order, key(x));
    OnceSplit(multiset(a), multiset(b), x, key(x) == order[0], key(x) in order[1..]);
  }

  lemma {:induction false} GatherSnoc<T, K>(s: seq<T>, x: T, key: T -> K, order: seq<K>)
    requires Distinct(order)
    ensures multiset(Gather(s + [x], key, order)) == multiset(Gather(s, key, order)) + Once(x, key(x) in order)
    decreases |order|
  {
    if order != [] {
      DistinctTail(order);
      GatherSnoc(s, x, key, order[1..]);
      GatherSnocStep(s, x, key, order);
    }
  }

  /** The prefixes of s: every group taken once is a permutation of the prefix. */
  lemma {:induction false} GatherPrefixPerm<T, K>(s: seq<T>, key: T -> K, order: seq<K>, n: int)
    requires Distinct(order) && 0 <= n <= |s|
    requires forall i :: 0 <= i < |s| ==> key(s[i]) in order
    ensures multiset(Gather(s[..n], key, order)) == multiset(s[..n])
    decreases n
  {
    if n == 0 {
      GatherEmpty(key, order);
    } else {
      GatherPrefixPerm(s, key, order, n - 1);
      assert s[..n] == s[..n - 1] + [s[n - 1]];
      GatherSnoc(s[..n - 1], s[n - 1], key, order);
      assert Once(s[n - 1], key(s[n - 1]) in order) == multiset{s[n - 1]};
    }
  }

  /** Taking every group once, in any order of the distinct keys, is a permutation. */
  lemma GatherPerm<T, K>(s: seq<T>, key: T -> K, order: seq<K>)
    requires Distinct(order)
    requires forall i :: 0 <= i < |s| ==> key(s[i]) in order
    ensures multiset(Gather(s, key, order)) == multiset(s)
  {
    GatherPrefixPerm(s, key, order, |s|);
    assert s[..|s|] == s;
  }

  /** The keys of a prefix one element longer. */
  lemma KeysPrefix<T, K>(s: seq<T>, i: int, key: T -> K)
    requires 0 <= i < |s|
    ensures Keys(s[..i + 1], key) == if key(s[i]) in Keys(s[..i], key) then Keys(s[..i], key) else Keys(s[..i], key) + [key(s[i])]
  {
    assert s[..i + 1][..i] == s[..i];
  }

  /** The group of k in a prefix one element longer. */
  lemma SelectPrefix<T, K>(s: seq<T>, i: int, key: T -> K, k: K)
    requires 0 <= i < |s|
    ensures Select(s[..i + 1], key, k) == Select(s[..i], key, k) + (if key(s[i]) == k then [s[i]] else [])
  {
    assert s[..i + 1][..i] == s[..i];
  }

  lemma {:induction false} SelectNonEmptyIffKey<T, K>(s: seq<T>, key: T -> K, k: K)
    ensures Select(s, key, k) != [] <==> k in Keys(s, key)
  {
    KeysHas(s, key, k);
    if Select(s, key, k) != [] {
      var x := Select(s, key, k)[0];
      SelectHas(s, key, k, x);
      var i :| 0 <= i < |s| && s[i] == x;
    }
    if k in Keys(s, key) {
      var i :| 0 <= i < |s| && key(s[i]) == k;
      SelectHas(s, key, k, s[i]);
    }
  }

  // ------------------------------------------- multisets and distinctness

  lemma {:induction false} DistinctCount<K>(s: seq<K>, x: K)
    requires Distinct(s)
    ensures multiset(s)[x] <= 1
    decreases |s|
  {
    if s != [] {
      DistinctTail(s);
      DistinctCount(s[1..], x);
      assert s == [s[0]] + s[1..];
    }
  }

  /** A permutation of a sequence without repetitions has none either. */
  lemma DistinctPerm<K>(a: seq<K>, b: seq<K>)
    requires Distinct(a) && multiset(a) == multiset(b)
    ensures Distinct(b)
  {
    forall i, j | 0 <= i < j < |b| ensures b[i] != b[j] {
      if b[i] == b[j] {
        var x := b[i];
        assert b == b[..j] + b[j..];
        assert x in b[..j] && x in b[j..];
        assert multiset(b)[x] == multiset(b[..j])[x] + multiset(b[j..])[x];
        DistinctCount(a, x);
      }
    }
  }

  lemma {:induction false} FilterSplit<T>(s: seq<T>, p: T -> bool, q: T -> bool)
    requires forall x :: q(x) == !p(x)
    ensures multiset(Filter(s, p)) + multiset(Filter(s, q)) == multiset(s)
    decreases |s|
  {
    if s != [] {
      FilterSplit(s[..|s| - 1], p, q);
      assert s == s[..|s| - 1] + [s[|s| - 1]];
    }
  }

  /** Filtering with a test every element passes changes nothing. */
  lemma {:induction false} FilterAll<T>(s: seq<T>, p: T -> bool)
    requires forall i :: 0 <= i < |s| ==> p(s[i])
    ensures Filter(s, p) == s
  {
    if s != [] {
      FilterAll(s[..|s| - 1], p);
      assert s[..|s| - 1] + [s[|s| - 1]] == s;
    }
  }

  /** Filtering keeps a sub-multiset. */
  lemma FilterSub<T>(s: seq<T>, p: T -> bool)
    ensures multiset(Filter(s, p)) <= multiset(s)
  {
    FilterSplit(s, p, x => !p(x));
  }

  /** A prefix keeps a sub-multiset. */
  lemma PrefixSub<T>(s: seq<T>, n: int)
    requires 0 <= n <= |s|
    ensures multiset(s[..n]) <= multiset(s)
  {
    assert s == s[..n] + s[n..];
  }

  lemma {:induction false} FilterAppend<T>(a: seq<T>, b: seq<T>, p: T -> bool)
    ensures Filter(a + b, p) == Filter(a, p) + Filter(b, p)
    decreases |b|
  {
    if b == [] {
      assert a + b == a;
    } else {
      var init := b[..|b| - 1];
      assert (a + b)[..|a + b| - 1] == a + init;
      FilterAppend(a, init, p);
    }
  }

  /** Filtering twice is filtering once by both tests. */
  lemma {:induction false} FilterFilter<T>(s: seq<T>, p: T -> bool, q: T -> bool, pq: T -> bool)
    requires forall x :: pq(x) == (p(x) && q(x))
    ensures Filter(Filter(s, p), q) == Filter(s, pq)
    decreases |s|
  {
    if s != [] {
      var init := s[..|s| - 1];
      var x := s[|s| - 1];
      FilterFilter(init, p, q, pq);
      FilterAppend(Filter(init, p), if p(x) then [x] else [], q);
    }
  }

  /** A group holds an element passing p exactly when the sequence holds one with that key. */
  lemma SelectFilterFound<T, K>(s: seq<T>, key: T -> K, k: K, p: T -> bool)
    ensures Filter(Select(s, key, k), p) != [] <==> exists i :: 0 <= i < |s| && key(s[i]) == k && p(s[i])
  {
    var g := Select(s, key, k);
    if Filter(g, p) != [] {
      var y := Filter(g, p)[0];
      FilterHas(g, p, y);
      SelectHas(s, key, k, y);
      var i :| 0 <= i < |s| && s[i] == y;
    }
    if exists i :: 0 <= i < |s| && key(s[i]) == k && p(s[i]) {
      var i :| 0 <= i < |s| && key(s[i]) == k && p(s[i]);
      SelectHas(s, key, k, s[i]);
      FilterHas(g, p, s[i]);
    }
  }

  /** Mapping then filtering on the image is filtering on the matching test, then mapping. */
  lemma {:induction false} FilterProject<T, U>(s: seq<T>, f: T -> U, p: U -> bool, q: T -> bool)
    requires forall x :: q(x) == p(f(x))
    ensures Filter(Project(s, f), p) == Project(Filter(s, q), f)
    decreases |s|
  {
    if s != [] {
      var init := s[..|s| - 1];
      var x := s[|s| - 1];
      FilterProject(init, f, p, q);
      assert Project(s, f)[..|s| - 1] == Project(init, f);
      ProjectAppend(Filter(init, q), if q(x) then [x] else [], f);
    }
  }

  /** Filtering a group keeps it a group. */
  lemma FilterKeyed<T, K>(g: seq<T>, p: T -> bool, key: T -> K, k: K)
    requires Keyed(g, key, k)
    ensures Keyed(Filter(g, p), key, k)
  {
    var r := Filter(g, p);
    forall i | 0 <= i < |r| ensures key(r[i]) == k {
      FilterHas(g, p, r[i]);
      var j :| 0 <= j < |g| && g[j] == r[i];
    }
  }

  lemma {:induction false} GroupMapAppend<T, K>(s: seq<T>, key: T -> K, o1: seq<K>, o2: seq<K>, f: (K, seq<T>) -> seq<T>)
    ensures GroupMap(s, key, o1 + o2, f) == GroupMap(s, key, o1, f) + GroupMap(s, key, o2, f)
    decreases |o1|
  {
    if o1 != [] {
      assert (o1 + o2)[0] == o1[0] && (o1 + o2)[1..] == o1[1..] + o2;
      GroupMapAppend(s, key, o1[1..], o2, f);
    } else {
      assert o1 + o2 == o2;
    }
  }

  /** The loop over the groups, one more group at a time. */
  lemma GroupMapNext<T, K>(s: seq<T>, key: T -> K, order: seq<K>, f: (K, seq<T>) -> seq<T>, j: int)
    requires 0 <= j < |order|
    ensures GroupMap(s, key, order[..j + 1], f) == GroupMap(s, key, order[..j], f) + f(order[j], Select(s, key, order[j]))
  {
    assert order[..j + 1] == order[..j] + [order[j]];
    GroupMapAppend(s, key, order[..j], [order[j]], f);
    assert GroupMap(s, key, [order[j]], f) == f(order[j], Select(s, key, order[j])) + GroupMap(s, key, [], f);
  }

  // ------------------------------------------------ JavaScript key order

  /** A property key that JavaScript treats as an array index: canonical decimal below 2^32 - 1. */
  predicate IsArrayIndex(k: string) {
    k != [] && AllDigits(k) && (k[0] != '0' || |k| == 1) && DigitsValue(k) < 0xFFFF_FFFF
  }

  function IndexValue(k: string): int {
    if AllDigits(k) then DigitsValue(k) else 0
  }

  /**
   * The order in which Object.values/Object.entries visit the keys of an
   * object that received its keys in insertion order `keys`: array-index
   * keys in ascending numeric order first, then the other keys as inserted.
   */
  function EnumOrder(keys: seq<string>): (r: seq<string>)
    ensures multiset(r) == multiset(keys)
  {
    var idx := Filter(keys, IsArrayIndex);
    var rest := Filter(keys, k => !IsArrayIndex(k));
    FilterSplit(keys, IsArrayIndex, k => !IsArrayIndex(k));
    SortBy(idx, IndexValue) + rest
  }

  /** The enumeration order visits each key exactly once. */
  lemma EnumOrderDistinct(keys: seq<string>)
    requires Distinct(keys)
    ensures Distinct(EnumOrder(keys))
    ensures forall k :: k in EnumOrder(keys) <==> k in keys
  {
    DistinctPerm(keys, EnumOrder(keys));
    forall k ensures k in EnumOrder(keys) <==> k in keys {
      assert k in EnumOrder(keys) <==> k in multiset(EnumOrder(keys));
    }
  }

  // ------------------------------------ group, transform, concatenate

  /**
   * Group s by a string key, enumerate the groups as Object.values does,
   * transform each group with f and concatenate the results.
   */
  function Regroup<T>(s: seq<T>, key: T -> string, f: (string, seq<T>) -> seq<T>): seq<T> {
    GroupMap(s, key, EnumOrder(Keys(s, key)), f)
  }

  /** The enumeration order lists every key of s exactly once. */
  lemma RegroupOrder<T>(s: seq<T>, key: T -> string)
    ensures Distinct(EnumOrder(Keys(s, key)))
    ensures forall i :: 0 <= i < |s| ==> key(s[i]) in EnumOrder(Keys(s, key))
    ensures forall k :: k in EnumOrder(Keys(s, key)) <==> Select(s, key, k) != []
  {
    EnumOrderDistinct(Keys(s, key));
    KeysCover(s, key);
    forall k ensures k in EnumOrder(Keys(s, key)) <==> Select(s, key, k) != [] {
      SelectNonEmptyIffKey(s, key, k);
    }
  }

  /** The rows of one key in the output are that key's group, transformed. */
  lemma RegroupSelect<T>(s: seq<T>, key: T -> string, f: (string, seq<T>) -> seq<T>, k: string)
    requires forall j, g :: Keyed(g, key, j) ==> Keyed(f(j, g), key, j)
    requires f(k, []) == []
    ensures Select(Regroup(s, key, f), key, k) == f(k, Select(s, key, k))
  {
    var order := EnumOrder(Keys(s, key));
    RegroupOrder(s, key);
    forall i | 0 <= i < |order| ensures Keyed(f(order[i], Select(s, key, order[i])), key, order[i]) {
      SelectIsKeyed(s, key, order[i]);
    }
    SelectGroupMap(s, key, order, f, k);
  }

  /** When f keeps part of each group, the output is a sub-multiset of the input. */
  lemma RegroupSub<T>(s: seq<T>, key: T -> string, f: (string, seq<T>) -> seq<T>)
    requires forall j, g :: multiset(f(j, g)) <= multiset(g)
    ensures multiset(Regroup(s, key, f)) <= multiset(s)
  {
    var order := EnumOrder(Keys(s, key));
    RegroupOrder(s, key);
    GroupMapSub(s, key, order, f);
    GatherPerm(s, key, order);
  }

  lemma {:induction false} GroupMapPerm<T, K>(s: seq<T>, key: T -> K, order: seq<K>, f: (K, seq<T>) -> seq<T>)
    requires forall i :: 0 <= i < |order| ==> multiset(f(order[i], Select(s, key, order[i]))) == multiset(Select(s, key, order[i]))
    ensures multiset(GroupMap(s, key, order, f)) == multiset(Gather(s, key, order))
    decreases |order|
  {
    if order != [] {
      assert forall i :: 0 <= i < |order[1..]| ==> order[1..][i] == order[i + 1];
      GroupMapPerm(s, key, order[1..], f);
      assert multiset(f(order[0], Select(s, key, order[0]))) == multiset(Select(s, key, order[0]));
    }
  }

  /** When f permutes each group, the output is a permutation of the input. */
  lemma RegroupPerm<T>(s: seq<T>, key: T -> string, f: (string, seq<T>) -> seq<T>)
    requires forall j, g :: multiset(f(j, g)) == multiset(g)
    ensures multiset(Regroup(s, key, f)) == multiset(s)
  {
    var order := EnumOrder(Keys(s, key));
    RegroupOrder(s, key);
    GroupMapPerm(s, key, order, f);
    GatherPerm(s, key, order);
  }

  /** When f permutes each group up to proj, the output is a permutation of the input up to proj. */
  lemma RegroupProjectPerm<T, U>(s: seq<T>, key: T -> string, f: (string, seq<T>) -> seq<T>, proj: T -> U)
    requires forall j, g :: multiset(Project(f(j, g), proj)) == multiset(Project(g, proj))
    ensures multiset(Project(Regroup(s, key, f), proj)) == multiset(Project(s, proj))
  {
    var order := EnumOrder(Keys(s, key));
    RegroupOrder(s, key);
    GroupMapProjectPerm(s, key, order, f, proj);
    GatherPerm(s, key, order);
    ProjectPerm(Gather(s, key, order), s, proj);
  }

  // --------------------------------------------------- the push loop

  /** The groups of a prefix of rows, with its keys in order of first occurrence. */
  ghost predicate GroupsOf<T, K>(rows: seq<T>, key: T -> K, groups: map<K, seq<T>>, keys: seq<K>) {
    && keys == Keys(rows, key)
    && groups.Keys == set k | k in keys
    && (forall k :: k in groups ==> groups[k] == Select(rows, key, k))
  }

  /** The key set after a push. */
  lemma PushKeys<K, V>(groups: map<K, V>, keys: seq<K>, k: K, v: V)
    requires groups.Keys == set j | j in keys
    ensures k in groups ==> groups[k := v].Keys == set j | j in keys
    ensures k !in groups ==> groups[k := v].Keys == set j | j in keys + [k]
  {
    assert groups[k := v].Keys == groups.Keys + {k};
    assert (set j | j in keys + [k]) == (set j | j in keys) + {k};
  }

  /** One push: the groups of rows[..i] become the groups of rows[..i + 1]. */
  lemma PushStep<T, K>(rows: seq<T>, i: int, key: T -> K, groups: map<K, seq<T>>, keys: seq<K>)
    requires 0 <= i < |rows|
    requires GroupsOf(rows[..i], key, groups, keys)
    ensures var k := key(rows[i]);
            GroupsOf(rows[..i + 1], key,
                     groups[k := (if k in groups then groups[k] else []) + [rows[i]]],
                     if k in groups then keys else keys + [k])
  {
    var k := key(rows[i]);
    var groups' := groups[k := (if k in groups then groups[k] else []) + [rows[i]]];
    KeysPrefix(rows, i, key);
    PushKeys(groups, keys, k, (if k in groups then groups[k] else []) + [rows[i]]);
    forall j | j in groups' ensures groups'[j] == Select(rows[..i + 1], key, j) {
      SelectPrefix(rows, i, key, j);
      if j == k && k !in groups {
        SelectNonEmptyIffKey(rows[..i], key, k);
      }
    }
  }

  /** `for (const r of rows) (groups[key(r)] ??= []).push(r)`, remembering insertion order. */
  method GroupBy<T, K(==)>(rows: seq<T>, key: T -> K) returns (groups: map<K, seq<T>>, keys: seq<K>)
    ensures keys == Keys(rows, key)
    ensures forall k :: k in groups <==> k in keys
    ensures forall k :: k in groups ==> groups[k] == Select(rows, key, k)
  {
    groups, keys := map[], [];
    var i := 0;
    while i < |rows|
      invariant 0 <= i <= |rows|
      invariant GroupsOf(rows[..i], key, groups, keys)
    {
      var k := key(rows[i]);
      PushStep(rows, i, key, groups, keys);
      var group := if k in groups then groups[k] else [];
      if k !in groups {
        keys := keys + [k];
      }
      groups := groups[k := group + [rows[i]]];
      i := i + 1;
    }
    assert rows[..i] == rows;
    assert forall k :: k in groups <==> k in keys by {
      assert groups.Keys == set k | k in keys;
    }
  }

  /** The loop over the groups in the given order, appending each group's share. */
  method MapGroups<T, K(==)>(rows: seq<T>, key: T -> K, groups: map<K, seq<T>>, order: seq<K>, f: (K, seq<T>) -> seq<T>)
    returns (result: seq<T>)
    requires forall k :: k in order ==> k in groups && groups[k] == Select(rows, key, k)
    ensures result == GroupMap(rows, key, order, f)
  {
    result := [];
    var j := 0;
    while j < |order|
      invariant 0 <= j <= |order|
      invariant result == GroupMap(rows, key, order[..j], f)
    {
      var k := order[j];
      var group := groups[k];
      GroupMapNext(rows, key, order, f, j);
      result := result + f(k, group);
      j := j + 1;
    }
    assert order[..j] == order;
  }

  /**
   * The shape shared by steps 2 and 4: the push loop builds the groups,
   * then the loop over Object.values(groups) appends each group's share.
   */
  method RegroupLoop<T>(rows: seq<T>, key: T -> string, f: (string, seq<T>) -> seq<T>) returns (result: seq<T>)
    ensures result == Regroup(rows, key, f)
  {
    var groups, keys := GroupBy(rows, key);
    var order := EnumOrder(keys);
    EnumOrderDistinct(keys);
    result := MapGroups(rows, key, groups, order, f);
  }
}
