/** The array pipelines the views are built from: filter, a stable sort by an integer
    key (Array.prototype.sort with a comparator returning key(a) - key(b)), and prefixes. */
module Sequences {

  /** The elements of s that satisfy p, in their original order. */
  function Filter<T(!new)>(s: seq<T>, p: T -> bool): (r: seq<T>)
    ensures |r| <= |s|
    ensures forall x {:trigger multiset(r)[x]} :: multiset(r)[x] == if p(x) then multiset(s)[x] else 0
    ensures forall x :: x in r <==> x in s && p(x)
  {
    if s == [] then []
    else
      assert s == [s[0]] + s[1..];
      if p(s[0]) then [s[0]] + Filter(s[1..], p) else Filter(s[1..], p)
  }

  lemma FilterCons<T(!new)>(x: T, s: seq<T>, p: T -> bool)
    ensures Filter([x] + s, p) == (if p(x) then [x] else []) + Filter(s, p)
  {
    assert ([x] + s)[0] == x && ([x] + s)[1..] == s;
  }

  /** Filtering a concatenation filters each part and keeps them in order. */
  lemma {:induction false} FilterAppend<T(!new)>(s: seq<T>, t: seq<T>, p: T -> bool)
    ensures Filter(s + t, p) == Filter(s, p) + Filter(t, p)
  {
    if s != [] {
      calc {
        Filter(s + t, p);
        { assert s + t == [s[0]] + (s[1..] + t); FilterCons(s[0], s[1..] + t, p); }
        (if p(s[0]) then [s[0]] else []) + Filter(s[1..] + t, p);
        { FilterAppend(s[1..], t, p); }
        (if p(s[0]) then [s[0]] else []) + (Filter(s[1..], p) + Filter(t, p));
        { assert s == [s[0]] + s[1..]; FilterCons(s[0], s[1..], p); }
        Filter(s, p) + Filter(t, p);
      }
    } else {
      assert s + t == t;
    }
  }

  /** A filter that keeps every element changes nothing. */
  lemma {:induction false} FilterKeepsAll<T(!new)>(s: seq<T>, p: T -> bool)
    requires forall x :: x in s ==> p(x)
    ensures Filter(s, p) == s
  {
    if s != [] {
      assert forall x :: x in s[1..] ==> x in s;
      FilterKeepsAll(s[1..], p);
    }
  }

  /** Filtering twice by the same condition is filtering once. */
  lemma FilterIdempotent<T(!new)>(s: seq<T>, p: T -> bool)
    ensures Filter(Filter(s, p), p) == Filter(s, p)
  {
    FilterKeepsAll(Filter(s, p), p);
  }

  /** Filtering by two conditions that agree on every element gives the same result. */
  lemma {:induction false} FilterCongruent<T(!new)>(s: seq<T>, p: T -> bool, q: T -> bool)
    requires forall x :: x in s ==> (p(x) <==> q(x))
    ensures Filter(s, p) == Filter(s, q)
  {
    if s != [] {
      assert forall x :: x in s[1..] ==> x in s;
      FilterCongruent(s[1..], p, q);
    }
  }

  /** The number of elements of s that satisfy p. */
  function Count<T(!new)>(s: seq<T>, p: T -> bool): nat
  {
    |Filter(s, p)|
  }

  /** Elements satisfying p and elements failing it together make up s. */
  lemma {:induction false} FilterSplit<T(!new)>(s: seq<T>, p: T -> bool, q: T -> bool)
    requires forall x :: q(x) <==> !p(x)
    ensures |Filter(s, p)| + |Filter(s, q)| == |s|
    ensures multiset(Filter(s, p)) + multiset(Filter(s, q)) == multiset(s)
  {
    if s != [] {
      assert s == [s[0]] + s[1..];
      FilterSplit(s[1..], p, q);
    }
  }

  predicate SortedBy<T(!new)>(s: seq<T>, key: T -> int)
  {
    forall i, j :: 0 <= i < j < |s| ==> key(s[i]) <= key(s[j])
  }

  /** An element no greater than every element of a sorted sequence can go in front. */
  lemma SortedCons<T(!new)>(h: T, t: seq<T>, key: T -> int)
    requires SortedBy(t, key)
    requires forall y :: y in t ==> key(h) <= key(y)
    ensures SortedBy([h] + t, key)
  {
    var r := [h] + t;
    forall i, j | 0 <= i < j < |r| ensures key(r[i]) <= key(r[j]) {
      assert r[j] == t[j - 1];
      if i > 0 {
        assert r[i] == t[i - 1];
      } else {
        assert t[j - 1] in t;
      }
    }
  }

  /** The head of a sorted sequence has the least key. */
  lemma SortedHeadLeast<T(!new)>(s: seq<T>, key: T -> int)
    requires SortedBy(s, key) && |s| > 0
    ensures forall y :: y in s ==> key(s[0]) <= key(y)
  {
    forall y | y in s ensures key(s[0]) <= key(y) {
      var i :| 0 <= i < |s| && s[i] == y;
    }
  }

  /** s with x placed before the first element whose key is not below key(x). */
  function Insert<T(!new)>(x: T, s: seq<T>, key: T -> int): (r: seq<T>)
    requires SortedBy(s, key)
    ensures SortedBy(r, key)
    ensures multiset(r) == multiset(s) + multiset{x}
    ensures forall y :: y in r <==> y == x || y in s
  {
    if s == [] then [x]
    else
      SortedHeadLeast(s, key);
      if key(x) <= key(s[0]) then
        SortedCons(x, s, key);
        [x] + s
      else
        assert s == [s[0]] + s[1..];
        var rest := Insert(x, s[1..], key);
        SortedCons(s[0], rest, key);
        assert multiset([s[0]] + rest) == multiset{s[0]} + multiset(rest);
        [s[0]] + rest
  }

  /** s ordered by key, ties kept in their original order. */
  function SortBy<T(!new)>(s: seq<T>, key: T -> int): (r: seq<T>)
    ensures SortedBy(r, key)
    ensures multiset(r) == multiset(s)
    ensures |r| == |s|
    ensures forall x :: x in r <==> x in s
  {
    if s == [] then []
    else
      assert s == [s[0]] + s[1..];
      Insert(s[0], SortBy(s[1..], key), key)
  }

  /** The condition "has key k". */
  function HasKey<T(!new)>(key: T -> int, k: int): T -> bool
  {
    x => key(x) == k
  }

  lemma {:induction false} InsertKeepsEqualKeyOrder<T(!new)>(x: T, s: seq<T>, key: T -> int, k: int)
    requires SortedBy(s, key)
    ensures Filter(Insert(x, s, key), HasKey(key, k))
         == (if key(x) == k then [x] else []) + Filter(s, HasKey(key, k))
  {
    var p := HasKey(key, k);
    var xs: seq<T> := if key(x) == k then [x] else [];
    if s == [] || key(x) <= key(s[0]) {
      assert Insert(x, s, key) == [x] + s;
      FilterCons(x, s, p);
    } else {
      var rest := Insert(x, s[1..], key);
      var hs: seq<T> := if key(s[0]) == k then [s[0]] else [];
      assert xs == [] || hs == [];
      calc {
        Filter(Insert(x, s, key), p);
        { assert Insert(x, s, key) == [s[0]] + rest; FilterCons(s[0], rest, p); }
        hs + Filter(rest, p);
        { InsertKeepsEqualKeyOrder(x, s[1..], key, k); }
        hs + (xs + Filter(s[1..], p));
        xs + (hs + Filter(s[1..], p));
        { assert s == [s[0]] + s[1..]; FilterCons(s[0], s[1..], p); }
        xs + Filter(s, p);
      }
    }
  }

  /** The sort is stable: the elements with any one key come out in their original order. */
  lemma {:induction false} SortByIsStable<T(!new)>(s: seq<T>, key: T -> int, k: int)
    ensures Filter(SortBy(s, key), HasKey(key, k)) == Filter(s, HasKey(key, k))
  {
    if s != [] {
      SortByIsStable(s[1..], key, k);
      InsertKeepsEqualKeyOrder(s[0], SortBy(s[1..], key), key, k);
    }
  }

  /** The first n elements of s, or all of s when it is shorter (slice(0, n)). */
  function Take<T(!new)>(s: seq<T>, n: nat): (r: seq<T>)
    ensures |r| <= n && |r| <= |s|
    ensures |r| == n || r == s
    ensures forall i :: 0 <= i < |r| ==> r[i] == s[i]
    ensures multiset(r) <= multiset(s)
  {
    if |s| <= n then s
    else
      assert s == s[..n] + s[n..];
      s[..n]
  }

  /** A prefix of a sorted sequence is sorted and draws its elements from it. */
  lemma TakeSorted<T(!new)>(s: seq<T>, n: nat, key: T -> int)
    requires SortedBy(s, key)
    ensures SortedBy(Take(s, n), key)
    ensures forall x :: x in Take(s, n) ==> x in s
  {
  }

  /** What a prefix of a sorted sequence leaves out sorts no earlier than its last element. */
  lemma TakeSortedLeavesLater<T(!new)>(s: seq<T>, n: nat, key: T -> int, y: T)
    requires SortedBy(s, key) && n > 0
    requires y in s && y !in Take(s, n)
    ensures |Take(s, n)| == n && key(Take(s, n)[n - 1]) <= key(y)
  {
    var i :| 0 <= i < |s| && s[i] == y;
    var r := Take(s, n);
    assert |r| <= i < |s|;
    assert r[n - 1] == s[n - 1];
  }
}
