/** Option, shared by every module whose source returns None. */
module Wrappers {
  datatype Option<+T> = None | Some(value: T)
}

/** Small sequence helpers shared by the models: Python's list.remove,
    comprehension filters, duplicate-freedom and element counting. */
module Seqs {

  /** No element occurs twice. */
  ghost predicate NoDup<T>(s: seq<T>) {
    forall x :: x in multiset(s) ==> multiset(s)[x] == 1
  }

  /** The same, stated on positions. */
  lemma NoDupIndex<T>(s: seq<T>)
    ensures NoDup(s) <==> forall i, j :: 0 <= i < j < |s| ==> s[i] != s[j]
  {
    if NoDup(s) {
      forall i, j | 0 <= i < j < |s|
        ensures s[i] != s[j]
      {
        assert s == s[..i] + [s[i]] + s[i + 1..j] + [s[j]] + s[j + 1..];
        assert multiset([s[i]] + [s[j]]) <= multiset(s);
      }
    } else {
      var x :| x in multiset(s) && multiset(s)[x] != 1;
      var i :| 0 <= i < |s| && s[i] == x;
      assert s == s[..i] + [x] + s[i + 1..];
      assert multiset(s[..i])[x] + multiset(s[i + 1..])[x] > 0;
      if x in s[..i] {
        var k :| 0 <= k < i && s[..i][k] == x;
        assert s[k] == s[i];
      } else {
        assert x in multiset(s[i + 1..]);
        var k :| 0 <= k < |s[i + 1..]| && s[i + 1..][k] == x;
        assert s[i + 1 + k] == s[i];
      }
    }
  }

  /** The set of elements of a sequence. */
  function Elems<T>(s: seq<T>): set<T> {
    set x | x in s
  }

  /** Python's `list.remove(x)`: drops the first occurrence of `x`.
      When `x` is absent the list is returned unchanged (Python raises
      instead; every caller in the models checks membership first). */
  function RemoveFirst<T(==)>(s: seq<T>, x: T): (r: seq<T>)
    ensures x in s ==> |r| == |s| - 1 && multiset(r) + multiset{x} == multiset(s)
    ensures x !in s ==> r == s
  {
    if s == [] then []
    else
      assert s == [s[0]] + s[1..];
      if s[0] == x then s[1..]
      else [s[0]] + RemoveFirst(s[1..], x)
  }

  /** `list.remove(x)` keeps every other value. */
  lemma RemoveFirstKeeps<T>(s: seq<T>, x: T, y: T)
    requires y in s && y != x
    ensures y in RemoveFirst(s, x)
  {
    if x in s {
      assert multiset(s)[y] == multiset(RemoveFirst(s, x))[y];
    }
  }

  lemma {:induction false} RemoveFirstAfterPrefix<T>(p: seq<T>, s: seq<T>, x: T)
    requires x !in p
    ensures RemoveFirst(p + s, x) == p + RemoveFirst(s, x)
  {
    if p == [] {
      assert p + s == s;
    } else {
      assert (p + s)[1..] == p[1..] + s;
      RemoveFirstAfterPrefix(p[1..], s, x);
      assert p == [p[0]] + p[1..];
    }
  }

  /** `[x for x in s if p(x)]`. */
  function Filter<T>(s: seq<T>, p: T -> bool): (r: seq<T>)
    ensures |r| <= |s|
  {
    if s == [] then [] else (if p(s[0]) then [s[0]] else []) + Filter(s[1..], p)
  }

  /** The filter keeps exactly the elements that pass. */
  lemma {:induction false} FilterMembers<T>(s: seq<T>, p: T -> bool)
    ensures forall x :: x in Filter(s, p) <==> x in s && p(x)
  {
    if s != [] {
      assert s == [s[0]] + s[1..];
      FilterMembers(s[1..], p);
    }
  }

  lemma {:induction false} FilterAppend<T>(a: seq<T>, b: seq<T>, p: T -> bool)
    ensures Filter(a + b, p) == Filter(a, p) + Filter(b, p)
  {
    if a == [] {
      assert a + b == b;
    } else {
      var h := if p(a[0]) then [a[0]] else [];
      assert (a + b)[1..] == a[1..] + b;
      assert (a + b)[0] == a[0];
      assert Filter(a + b, p) == h + Filter(a[1..] + b, p);
      FilterAppend(a[1..], b, p);
      assert Filter(a, p) == h + Filter(a[1..], p);
    }
  }

  lemma {:induction false} FilterSub<T>(s: seq<T>, p: T -> bool)
    ensures multiset(Filter(s, p)) <= multiset(s)
  {
    if s != [] {
      assert s == [s[0]] + s[1..];
      FilterSub(s[1..], p);
    }
  }

  lemma NoDupTail<T>(s: seq<T>)
    requires NoDup(s) && s != []
    ensures NoDup(s[1..]) && s[0] !in s[1..]
  {
    assert s == [s[0]] + s[1..];
    assert multiset(s) == multiset{s[0]} + multiset(s[1..]);
    assert multiset(s)[s[0]] == 1;
    forall x | x in multiset(s[1..])
      ensures multiset(s[1..])[x] == 1
    {
      assert multiset(s)[x] == multiset{s[0]}[x] + multiset(s[1..])[x];
    }
  }

  /** When `s` has no duplicates, the filter keeps the relative order of
      `s`: an element that precedes `s[j]` in `s` and passes `p` precedes
      `s[j]` in the filtered sequence. */
  lemma {:induction false} FilterKeepsOrder<T>(s: seq<T>, p: T -> bool, i: nat, j: nat, b: nat)
    requires NoDup(s) && i < j < |s| && p(s[i])
    requires b < |Filter(s, p)| && Filter(s, p)[b] == s[j]
    ensures s[i] in Filter(s, p)[..b]
  {
    var f := Filter(s, p);
    var t := Filter(s[1..], p);
    NoDupTail(s);
    var si, sj := s[i], s[j];
    if i > 0 {
      assert s[1..][i - 1] == si;
    }
    assert s[1..][j - 1] == sj;
    if p(s[0]) {
      assert f == [s[0]] + t;
      if i == 0 {
        assert b > 0;
        assert f[..b][0] == s[0];
      } else {
        assert b > 0;
        assert t[b - 1] == sj;
        FilterKeepsOrder(s[1..], p, i - 1, j - 1, b - 1);
        assert f[..b] == [s[0]] + t[..b - 1];
      }
    } else {
      assert f == t;
      FilterKeepsOrder(s[1..], p, i - 1, j - 1, b);
    }
  }

  /** A sequence whose elements all occur in a duplicate-free one (counted
      with multiplicity) is itself duplicate-free. */
  lemma NoDupSub<T>(s: seq<T>, t: seq<T>)
    requires multiset(s) <= multiset(t) && NoDup(t)
    ensures NoDup(s)
  {
    forall x | x in multiset(s)
      ensures multiset(s)[x] == 1
    {
      assert multiset(s)[x] <= multiset(t)[x];
    }
  }

  lemma {:induction false} NoDupElemsCard<T>(s: seq<T>)
    requires NoDup(s)
    ensures |Elems(s)| == |s|
  {
    if s != [] {
      NoDupTail(s);
      NoDupElemsCard(s[1..]);
      assert s == [s[0]] + s[1..];
      assert Elems(s) == {s[0]} + Elems(s[1..]);
    }
  }

  /** Number of elements of `s` satisfying `p`. */
  function Count<T>(s: seq<T>, p: T -> bool): (n: nat)
    ensures n == |Filter(s, p)|
    ensures n <= |s|
  {
    if s == [] then 0 else (if p(s[0]) then 1 else 0) + Count(s[1..], p)
  }

  /** After `list.remove(x)` on a duplicate-free list, `x` is gone. */
  lemma RemoveFirstNoDup<T>(s: seq<T>, x: T)
    requires NoDup(s)
    ensures x !in RemoveFirst(s, x)
    ensures NoDup(RemoveFirst(s, x))
  {
    var r := RemoveFirst(s, x);
    if x in s {
      assert multiset(s)[x] == 1;
      assert (multiset(r) + multiset{x})[x] == multiset(r)[x] + 1;
      NoDupSub(r, s);
    }
  }

  lemma SubsetCard<T>(a: set<T>, b: set<T>)
    requires a <= b
    ensures |a| <= |b|
    decreases a
  {
    if a != {} {
      var y :| y in a;
      SubsetCard(a - {y}, b - {y});
    }
  }

  /** A proper subset is strictly smaller. */
  lemma ProperSubsetCard<T>(a: set<T>, b: set<T>)
    requires a < b
    ensures |a| < |b|
  {
    var x :| x in b && x !in a;
    SubsetCard(a, b - {x});
  }

  /** The elements of `s` whose key is `k`, in their order in `s`. */
  function KeyClass<T>(s: seq<T>, key: T -> int, k: int): seq<T> {
    Filter(s, x => key(x) == k)
  }

  /** Insert `x` before the first element whose key is not smaller. */
  function InsertByKey<T>(x: T, s: seq<T>, key: T -> int): (r: seq<T>)
    ensures multiset(r) == multiset(s) + multiset{x}
    ensures |r| == |s| + 1
  {
    if s == [] || key(x) <= key(s[0]) then [x] + s
    else
      assert s == [s[0]] + s[1..];
      [s[0]] + InsertByKey(x, s[1..], key)
  }

  predicate SortedByKey<T>(s: seq<T>, key: T -> int) {
    forall i, j :: 0 <= i < j < |s| ==> key(s[i]) <= key(s[j])
  }

  lemma {:induction false} InsertByKeySorted<T>(x: T, s: seq<T>, key: T -> int)
    requires SortedByKey(s, key)
    ensures SortedByKey(InsertByKey(x, s, key), key)
  {
    if s != [] && key(x) > key(s[0]) {
      InsertByKeySorted(x, s[1..], key);
      var t := InsertByKey(x, s[1..], key);
      assert multiset(t) == multiset(s[1..]) + multiset{x};
      forall j | 0 < j < |t| + 1
        ensures key(s[0]) <= key(([s[0]] + t)[j])
      {
        var y := t[j - 1];
        assert y in multiset(t);
        if y != x {
          assert y in multiset(s[1..]);
          var m :| 0 <= m < |s[1..]| && s[1..][m] == y;
          assert s[m + 1] == y;
        }
      }
    }
  }

  lemma {:induction false} InsertByKeyClass<T>(x: T, s: seq<T>, key: T -> int, k: int)
    ensures KeyClass(InsertByKey(x, s, key), key, k)
         == (if key(x) == k then [x] else []) + KeyClass(s, key, k)
  {
    var r := InsertByKey(x, s, key);
    if s == [] || key(x) <= key(s[0]) {
      assert r == [x] + s;
      FilterAppend([x], s, y => key(y) == k);
    } else {
      var t := InsertByKey(x, s[1..], key);
      assert r == [s[0]] + t;
      FilterAppend([s[0]], t, y => key(y) == k);
      InsertByKeyClass(x, s[1..], key, k);
      assert s == [s[0]] + s[1..];
      FilterAppend([s[0]], s[1..], y => key(y) == k);
    }
  }

  /** Python's `sorted(s, key=key)`: a stable sort. The result is a
      permutation of `s`, ordered by key, and elements with equal keys keep
      their relative order from `s`. */
  function SortByKey<T>(s: seq<T>, key: T -> int): (r: seq<T>)
    ensures multiset(r) == multiset(s)
    ensures SortedByKey(r, key)
    ensures forall k :: KeyClass(r, key, k) == KeyClass(s, key, k)
  {
    if s == [] then []
    else
      var t := SortByKey(s[1..], key);
      InsertByKeySorted(s[0], t, key);
      assert s == [s[0]] + s[1..];
      assert forall k :: KeyClass(InsertByKey(s[0], t, key), key, k) == KeyClass(s, key, k) by {
        forall k
          ensures KeyClass(InsertByKey(s[0], t, key), key, k) == KeyClass(s, key, k)
        {
          InsertByKeyClass(s[0], t, key, k);
          FilterAppend([s[0]], s[1..], y => key(y) == k);
        }
      }
      InsertByKey(s[0], t, key)
  }

  /** A sub-multiset is no longer, and as long only when equal. */
  lemma MultisetSubCard<T>(a: seq<T>, b: seq<T>)
    requires multiset(a) <= multiset(b)
    ensures |a| <= |b|
    ensures |a| == |b| <==> multiset(a) == multiset(b)
  {
    var m := multiset(b) - multiset(a);
    assert multiset(b) == multiset(a) + m;
    assert |multiset(b)| == |multiset(a)| + |m|;
  }
}
