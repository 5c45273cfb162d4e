/** Rust's stable `sort`/`sort_by` and the key order of its `BTreeMap`. */
module Sorting {
  import opened Prelude
  import opened Selecting

  ghost predicate SortedBy<T>(s: seq<T>, le: (T, T) -> bool) {
    forall i, j :: 0 <= i < j < |s| ==> le(s[i], s[j])
  }

  /** Puts `x` before the first element it does not exceed: stable when `x` comes first. */
  function InsertBy<T>(x: T, s: seq<T>, le: (T, T) -> bool): (r: seq<T>)
    ensures multiset(r) == multiset{x} + multiset(s)
    ensures |r| == |s| + 1
  {
    if s == [] || le(x, s[0]) then
      [x] + s
    else
      assert s == [s[0]] + s[1..];
      [s[0]] + InsertBy(x, s[1..], le)
  }

  /** The stable sort of `s`. */
  function SortBy<T>(s: seq<T>, le: (T, T) -> bool): (r: seq<T>)
    ensures multiset(r) == multiset(s)
    ensures |r| == |s|
  {
    if s == [] then
      []
    else
      assert s == [s[0]] + s[1..];
      InsertBy(s[0], SortBy(s[1..], le), le)
  }

  lemma InsertCons<T>(x: T, h: T, s: seq<T>, le: (T, T) -> bool)
    ensures InsertBy(x, [h] + s, le) == if le(x, h) then [x] + ([h] + s) else [h] + InsertBy(x, s, le)
  {
    assert ([h] + s)[1..] == s;
  }

  lemma SortCons<T>(x: T, s: seq<T>, le: (T, T) -> bool)
    ensures SortBy([x] + s, le) == InsertBy(x, SortBy(s, le), le)
  {
    assert ([x] + s)[1..] == s;
  }

  lemma {:induction false} InsertBySorted<T(!new)>(x: T, s: seq<T>, le: (T, T) -> bool)
    requires TotalPreorder(le) && SortedBy(s, le)
    ensures SortedBy(InsertBy(x, s, le), le)
  {
    if s != [] && !le(x, s[0]) {
      InsertBySorted(x, s[1..], le);
      var rest := InsertBy(x, s[1..], le);
      forall j | 0 <= j < |rest|
        ensures le(s[0], rest[j])
      {
        assert rest[j] in multiset(rest);
        assert rest[j] == x || rest[j] in s[1..];
      }
    }
  }

  lemma {:induction false} SortBySorted<T(!new)>(s: seq<T>, le: (T, T) -> bool)
    requires TotalPreorder(le)
    ensures SortedBy(SortBy(s, le), le)
  {
    if s != [] {
      SortBySorted(s[1..], le);
      InsertBySorted(s[0], SortBy(s[1..], le), le);
    }
  }

  /** What sorts together with `z`. */
  function Like<T>(z: T, le: (T, T) -> bool): T -> bool {
    x => le(x, z) && le(z, x)
  }

  lemma NotBoth<T(!new)>(x: T, h: T, le: (T, T) -> bool, z: T)
    requires TotalPreorder(le) && !le(x, h)
    ensures !(Like(z, le)(x) && Like(z, le)(h))
  {
  }

  lemma {:induction false} InsertStable<T(!new)>(x: T, s: seq<T>, le: (T, T) -> bool, z: T)
    requires TotalPreorder(le)
    ensures Filter(InsertBy(x, s, le), Like(z, le)) == Filter([x] + s, Like(z, le))
  {
    if s != [] && !le(x, s[0]) {
      hide Filter, InsertBy, Like, TotalPreorder;
      var h, rest, keep := s[0], s[1..], Like(z, le);
      HeadSplit(s);
      InsertCons(x, h, rest, le);
      InsertStable(x, rest, le, z);
      NotBoth(x, h, le, z);
      FilterCons(h, InsertBy(x, rest, le), keep);
      FilterCons(x, rest, keep);
      FilterCons(h, rest, keep);
      FilterCons(x, s, keep);
      assert Filter(rest, keep) == [] + Filter(rest, keep);
    }
  }

  /** The sort is stable: what sorts together stays in the order it was in. */
  lemma {:induction false} SortStable<T(!new)>(s: seq<T>, le: (T, T) -> bool, z: T)
    requires TotalPreorder(le)
    ensures Filter(SortBy(s, le), Like(z, le)) == Filter(s, Like(z, le))
  {
    if s != [] {
      SortStable(s[1..], le, z);
      HeadSplit(s);
      InsertStable(s[0], SortBy(s[1..], le), le, z);
      FilterCons(s[0], SortBy(s[1..], le), Like(z, le));
      FilterCons(s[0], s[1..], Like(z, le));
    }
  }

  lemma SortByMembers<T>(s: seq<T>, le: (T, T) -> bool)
    ensures forall x :: x in SortBy(s, le) <==> x in s
  {
    forall x: T
      ensures x in SortBy(s, le) <==> x in s
    {
      assert x in SortBy(s, le) <==> x in multiset(SortBy(s, le));
      assert x in s <==> x in multiset(s);
    }
  }

  /** Sorted sequences with the same contents are equal when `le` separates those contents. */
  lemma {:induction false} SortedUnique<T(!new)>(a: seq<T>, b: seq<T>, le: (T, T) -> bool)
    requires TotalPreorder(le) && SortedBy(a, le) && SortedBy(b, le)
    requires multiset(a) == multiset(b)
    requires forall x, y :: x in a && y in a && le(x, y) && le(y, x) ==> x == y
    ensures a == b
  {
    assert |multiset(a)| == |a| && |multiset(b)| == |b|;
    if a != [] {
      assert a[0] == b[0] by {
        assert a[0] in multiset(b) && b[0] in multiset(a);
        var i, j :| 0 <= i < |a| && a[i] == b[0] && 0 <= j < |b| && b[j] == a[0];
        assert (i == 0 || le(a[0], a[i])) && (j == 0 || le(b[0], b[j]));
      }
      HeadSplit(a);
      HeadSplit(b);
      assert multiset(a[1..]) == multiset(a) - multiset{a[0]};
      assert multiset(b[1..]) == multiset(b) - multiset{b[0]};
      SortedUnique(a[1..], b[1..], le);
    }
  }

  // ── Key order of a BTreeMap ───────────────────────────────────────────────

  predicate Least<K(!new)>(k: K, s: set<K>, le: (K, K) -> bool) {
    k in s && forall x :: x in s ==> le(k, x)
  }

  lemma {:induction false} LeastExists<K(!new)>(s: set<K>, le: (K, K) -> bool) returns (k: K)
    requires TotalOrder(le) && s != {}
    ensures Least(k, s, le)
    decreases |s|
  {
    k :| k in s;
    var t := s - {k};
    if t != {} {
      var m := LeastExists(t, le);
      if !le(k, m) {
        k := m;
      }
    }
    forall x | x in s
      ensures le(k, x)
    {
    }
  }

  lemma LeastFirst<K(!new)>(k: K, rest: seq<K>, s: set<K>, le: (K, K) -> bool)
    requires Least(k, s, le)
    requires forall x :: x in rest <==> x in s && x != k
    requires forall i, j :: 0 <= i < j < |rest| ==> le(rest[i], rest[j]) && rest[i] != rest[j]
    ensures var r := [k] + rest;
            && (forall x :: x in r <==> x in s)
            && (forall i, j :: 0 <= i < j < |r| ==> le(r[i], r[j]) && r[i] != r[j])
  {
    var r := [k] + rest;
    forall i, j | 0 <= i < j < |r|
      ensures le(r[i], r[j]) && r[i] != r[j]
    {
      assert r[j] in rest;
    }
  }

  /** The elements of a set in ascending order. */
  function Ascending<K(!new)>(s: set<K>, le: (K, K) -> bool): (r: seq<K>)
    requires TotalOrder(le)
    ensures |r| == |s|
    ensures forall x :: x in r <==> x in s
    ensures forall i, j :: 0 <= i < j < |r| ==> le(r[i], r[j]) && r[i] != r[j]
    decreases |s|
  {
    if s == {} then
      []
    else
      assert exists k :: Least(k, s, le) by {
        var k := LeastExists(s, le);
      }
      var k :| Least(k, s, le);
      var rest := Ascending(s - {k}, le);
      LeastFirst(k, rest, s, le);
      [k] + rest
  }

  /** The iteration order of a `BTreeMap<u64, _>` with these keys. */
  function KeysInOrder(s: set<U64>): (r: seq<U64>)
    ensures forall x :: x in r <==> x in s
    ensures forall i, j :: 0 <= i < j < |r| ==> r[i] < r[j]
  {
    assert TotalOrder(KeyLe);
    Ascending(s, KeyLe)
  }

  /** The iteration order of a `BTreeMap<String, _>` with these keys. */
  function NamesInOrder(s: set<Str>): (r: seq<Str>)
    ensures forall x :: x in r <==> x in s
    ensures forall i, j :: 0 <= i < j < |r| ==> StrLe(r[i], r[j]) && r[i] != r[j]
  {
    StrLeIsTotalOrder();
    Ascending(s, StrLe)
  }
}
