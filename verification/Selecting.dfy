/**
 * What it means to filter a list, said by places: the meaning every filtering loop, `retain`
 * and WHERE clause of the model is held against.
 */
module Selecting {
  import opened Prelude

  ghost predicate Increasing(places: seq<int>) {
    forall i, j :: 0 <= i < j < |places| ==> places[i] < places[j]
  }

  /** Exactly the places whose elements are to be kept. */
  ghost predicate Marks<T>(s: seq<T>, keep: T -> bool, places: seq<int>) {
    forall k :: k in places <==> 0 <= k < |s| && keep(s[k])
  }

  ghost predicate ReadsOff<T>(s: seq<T>, places: seq<int>, r: seq<T>) {
    |r| == |places| && forall i :: 0 <= i < |r| ==> 0 <= places[i] < |s| && r[i] == s[places[i]]
  }

  /** `r` holds the elements of `s` to keep, each place once and in order. */
  ghost predicate Selects<T>(s: seq<T>, r: seq<T>, keep: T -> bool) {
    exists places :: Increasing(places) && Marks(s, keep, places) && ReadsOff(s, places, r)
  }

  lemma SelectsNone<T>(keep: T -> bool)
    ensures Selects([], [], keep)
  {
    assert Increasing([]) && Marks([], keep, []) && ReadsOff<T>([], [], []);
  }

  function Shifted(places: seq<int>): (r: seq<int>)
    ensures |r| == |places| && forall i :: 0 <= i < |r| ==> r[i] == places[i] + 1
  {
    seq(|places|, i requires 0 <= i < |places| => places[i] + 1)
  }

  lemma ShiftedMember(places: seq<int>, k: int)
    ensures k in Shifted(places) <==> k - 1 in places
  {
    if k - 1 in places {
      var i :| 0 <= i < |places| && places[i] == k - 1;
      assert Shifted(places)[i] == k;
    }
  }

  lemma ShiftedMarks<T>(x: T, s: seq<T>, keep: T -> bool, places: seq<int>)
    requires Marks(s, keep, places)
    ensures forall k :: k in Shifted(places) <==> 0 < k <= |s| && keep(([x] + s)[k])
  {
    hide Shifted;
    forall k
      ensures k in Shifted(places) <==> 0 < k <= |s| && keep(([x] + s)[k])
    {
      ShiftedMember(places, k);
      assert k - 1 in places <==> 0 <= k - 1 < |s| && keep(s[k - 1]);
    }
  }

  lemma ConsMember(k: int, places: seq<int>)
    ensures k in [0] + places <==> k == 0 || k in places
  {
  }

  lemma DropCons<T>(x: T, s: seq<T>, r: seq<T>, keep: T -> bool, places: seq<int>)
    requires !keep(x) && Increasing(places) && Marks(s, keep, places) && ReadsOff(s, places, r)
    ensures Selects([x] + s, r, keep)
  {
    hide Shifted;
    var longer, shifted := [x] + s, Shifted(places);
    ShiftedMarks(x, s, keep, places);
    assert longer[0] == x;
    assert Increasing(shifted) && Marks(longer, keep, shifted) && ReadsOff(longer, shifted, r);
  }

  lemma IncreasingCons(places: seq<int>)
    requires Increasing(places) && forall i :: 0 <= i < |places| ==> places[i] >= 0
    ensures Increasing([0] + Shifted(places))
  {
    hide Shifted;
  }

  lemma ReadsCons<T>(x: T, s: seq<T>, r: seq<T>, places: seq<int>)
    requires ReadsOff(s, places, r)
    ensures ReadsOff([x] + s, [0] + Shifted(places), [x] + r)
  {
    hide Shifted;
    var longer := [x] + s;
    assert forall i :: 0 <= i < |r| ==> longer[places[i] + 1] == s[places[i]];
  }

  lemma KeepCons<T>(x: T, s: seq<T>, r: seq<T>, keep: T -> bool, places: seq<int>)
    requires keep(x) && Increasing(places) && Marks(s, keep, places) && ReadsOff(s, places, r)
    ensures Selects([x] + s, [x] + r, keep)
  {
    hide Shifted;
    var longer, shifted := [x] + s, Shifted(places);
    var more := [0] + shifted;
    ShiftedMarks(x, s, keep, places);
    forall k
      ensures k in more <==> 0 <= k < |longer| && keep(longer[k])
    {
      ConsMember(k, shifted);
    }
    assert Marks(longer, keep, more);
    IncreasingCons(places);
    ReadsCons(x, s, r, places);
  }

  lemma SelectsCons<T>(x: T, s: seq<T>, r: seq<T>, keep: T -> bool)
    requires Selects(s, r, keep)
    ensures Selects([x] + s, (if keep(x) then [x] else []) + r, keep)
  {
    hide Increasing, Marks, ReadsOff;
    var places :| Increasing(places) && Marks(s, keep, places) && ReadsOff(s, places, r);
    hide Selects;
    if keep(x) {
      KeepCons(x, s, r, keep, places);
    } else {
      DropCons(x, s, r, keep, places);
      assert [] + r == r;
    }
  }

  lemma SnocMember(k: int, places: seq<int>, last: int)
    ensures k in places + [last] <==> k in places || k == last
  {
    assert (places + [last])[|places|] == last;
  }

  lemma DropSnoc<T>(s: seq<T>, x: T, r: seq<T>, keep: T -> bool, places: seq<int>)
    requires !keep(x) && Increasing(places) && Marks(s, keep, places) && ReadsOff(s, places, r)
    ensures Selects(s + [x], r, keep)
  {
    var longer := s + [x];
    assert longer[|s|] == x;
    assert Marks(longer, keep, places) && ReadsOff(longer, places, r);
  }

  lemma KeepSnoc<T>(s: seq<T>, x: T, r: seq<T>, keep: T -> bool, places: seq<int>)
    requires keep(x) && Increasing(places) && Marks(s, keep, places) && ReadsOff(s, places, r)
    ensures Selects(s + [x], r + [x], keep)
  {
    var longer, more := s + [x], places + [|s|];
    assert longer[|s|] == x;
    forall k
      ensures k in more <==> 0 <= k < |longer| && keep(longer[k])
    {
      SnocMember(k, places, |s|);
    }
    assert Marks(longer, keep, more);
    assert Increasing(more) && ReadsOff(longer, more, r + [x]);
  }

  lemma SelectsSnoc<T>(s: seq<T>, x: T, r: seq<T>, keep: T -> bool)
    requires Selects(s, r, keep)
    ensures Selects(s + [x], r + (if keep(x) then [x] else []), keep)
  {
    hide Increasing, Marks, ReadsOff;
    var places :| Increasing(places) && Marks(s, keep, places) && ReadsOff(s, places, r);
    hide Selects;
    if keep(x) {
      KeepSnoc(s, x, r, keep, places);
    } else {
      DropSnoc(s, x, r, keep, places);
      assert r + [] == r;
    }
  }

  // ── What a selection has to be ────────────────────────────────────────────

  /** The reference filter. */
  function Filter<T>(s: seq<T>, keep: T -> bool): seq<T> {
    if s == [] then [] else (if keep(s[0]) then [s[0]] else []) + Filter(s[1..], keep)
  }

  lemma FilterCons<T>(x: T, s: seq<T>, keep: T -> bool)
    ensures Filter([x] + s, keep) == (if keep(x) then [x] else []) + Filter(s, keep)
  {
    assert ([x] + s)[1..] == s;
  }

  lemma {:induction false} FilterSelects<T>(s: seq<T>, keep: T -> bool)
    ensures Selects(s, Filter(s, keep), keep)
  {
    hide Selects;
    SelectsNone(keep);
    if s != [] {
      FilterSelects(s[1..], keep);
      HeadSplit(s);
      SelectsCons(s[0], s[1..], Filter(s[1..], keep), keep);
    }
  }

  lemma {:induction false} SamePlaces(p: seq<int>, q: seq<int>)
    requires Increasing(p) && Increasing(q) && forall k :: k in p <==> k in q
    ensures p == q
  {
    if p != [] || q != [] {
      assert p != [] ==> p[0] in p && p[0] in q;
      assert q != [] ==> q[0] in q && q[0] in p;
      LeastPlace(p, q[0]);
      LeastPlace(q, p[0]);
      TailPlaces(p);
      TailPlaces(q);
      hide Increasing;
      SamePlaces(p[1..], q[1..]);
      HeadSplit(p);
      HeadSplit(q);
    }
  }

  lemma LeastPlace(p: seq<int>, k: int)
    requires Increasing(p) && k in p
    ensures p[0] <= k
  {
  }

  lemma TailPlaces(p: seq<int>)
    requires Increasing(p) && p != []
    ensures Increasing(p[1..]) && forall k :: k in p[1..] <==> k in p && k != p[0]
  {
    var rest := p[1..];
    assert forall i :: 0 <= i < |rest| ==> rest[i] == p[i + 1];
    assert p == [p[0]] + rest;
  }

  lemma SelectsOnly<T>(s: seq<T>, r: seq<T>, q: seq<T>, keep: T -> bool)
    requires Selects(s, r, keep) && Selects(s, q, keep)
    ensures r == q
  {
    hide Increasing;
    var a :| Increasing(a) && Marks(s, keep, a) && ReadsOff(s, a, r);
    var b :| Increasing(b) && Marks(s, keep, b) && ReadsOff(s, b, q);
    SamePlaces(a, b);
  }

  /** A list has one selection, the filtered list. */
  lemma SelectsIsFilter<T>(s: seq<T>, r: seq<T>, keep: T -> bool)
    ensures Selects(s, r, keep) <==> r == Filter(s, keep)
  {
    hide Selects;
    FilterSelects(s, keep);
    if Selects(s, r, keep) {
      SelectsOnly(s, r, Filter(s, keep), keep);
    }
  }

  lemma {:induction false} FilterFilter<T>(s: seq<T>, p: T -> bool, q: T -> bool, both: T -> bool)
    requires forall x :: x in s ==> both(x) == (p(x) && q(x))
    ensures Filter(Filter(s, p), q) == Filter(s, both)
  {
    if s != [] {
      FilterFilter(s[1..], p, q, both);
      if p(s[0]) {
        FilterCons(s[0], Filter(s[1..], p), q);
      } else {
        assert Filter(s, p) == Filter(s[1..], p);
      }
    }
  }

  lemma {:induction false} FilterCount<T>(s: seq<T>, keep: T -> bool, x: T)
    ensures multiset(Filter(s, keep))[x] == if keep(x) then multiset(s)[x] else 0
  {
    if s != [] {
      FilterCount(s[1..], keep, x);
      HeadSplit(s);
      assert multiset(s) == multiset([s[0]]) + multiset(s[1..]);
    }
  }

  /** It holds what is kept as often as the list does, and nothing else. */
  lemma SelectsCount<T>(s: seq<T>, r: seq<T>, keep: T -> bool, x: T)
    requires Selects(s, r, keep)
    ensures multiset(r)[x] == if keep(x) then multiset(s)[x] else 0
    ensures x in r <==> x in s && keep(x)
  {
    hide Selects;
    SelectsIsFilter(s, r, keep);
    FilterCount(s, keep, x);
    assert x in r <==> x in multiset(r);
    assert x in s <==> x in multiset(s);
  }
}
