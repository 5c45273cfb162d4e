/** Stamped sequences cut off at a point in time, by filtering and by popping off the front. */
module Windows {
  import opened Prelude
  import opened Selecting

  ghost predicate InOrder<T>(s: seq<T>, at: T -> int) {
    forall i, j :: 0 <= i < j < |s| ==> at(s[i]) <= at(s[j])
  }

  /** The elements stamped at `cutoff` or later. */
  function Recent<T>(s: seq<T>, at: T -> int, cutoff: int): (r: seq<T>)
    ensures |r| <= |s|
  {
    if s == [] then []
    else (if at(s[0]) >= cutoff then [s[0]] else []) + Recent(s[1..], at, cutoff)
  }

  function NotBefore<T>(at: T -> int, cutoff: int): T -> bool {
    x => at(x) >= cutoff
  }

  lemma {:induction false} RecentSelects<T>(s: seq<T>, at: T -> int, cutoff: int)
    ensures Selects(s, Recent(s, at, cutoff), NotBefore(at, cutoff))
  {
    hide Selects;
    SelectsNone(NotBefore(at, cutoff));
    if s != [] {
      RecentSelects(s[1..], at, cutoff);
      HeadSplit(s);
      SelectsCons(s[0], s[1..], Recent(s[1..], at, cutoff), NotBefore(at, cutoff));
    }
  }

  lemma RecentIsFilter<T>(s: seq<T>, at: T -> int, cutoff: int)
    ensures Recent(s, at, cutoff) == Filter(s, NotBefore(at, cutoff))
  {
    hide Selects;
    RecentSelects(s, at, cutoff);
    SelectsIsFilter(s, Recent(s, at, cutoff), NotBefore(at, cutoff));
  }

  lemma RecentCons<T>(x: T, s: seq<T>, at: T -> int, cutoff: int)
    ensures Recent([x] + s, at, cutoff)
            == if at(x) >= cutoff then [x] + Recent(s, at, cutoff) else Recent(s, at, cutoff)
  {
    assert ([x] + s)[1..] == s;
  }

  lemma {:induction false} RecentSnoc<T>(s: seq<T>, x: T, at: T -> int, cutoff: int)
    ensures Recent(s + [x], at, cutoff) == Recent(s, at, cutoff) + if at(x) >= cutoff then [x] else []
  {
    if s == [] {
      assert s + [x] == [x];
    } else {
      RecentSnoc(s[1..], x, at, cutoff);
      var head := if at(s[0]) >= cutoff then [s[0]] else [];
      var last := if at(x) >= cutoff then [x] else [];
      assert (s + [x])[1..] == s[1..] + [x];
      Associative(head, Recent(s[1..], at, cutoff), last);
    }
  }

  lemma {:induction false} RecentAll<T>(s: seq<T>, at: T -> int, cutoff: int)
    requires forall i :: 0 <= i < |s| ==> at(s[i]) >= cutoff
    ensures Recent(s, at, cutoff) == s
  {
    if s != [] {
      RecentAll(s[1..], at, cutoff);
      HeadSplit(s);
    }
  }

  /** In time order, nothing is stale once the head is recent. */
  lemma RecentFromHead<T>(s: seq<T>, at: T -> int, cutoff: int)
    requires s == [] || (InOrder(s, at) && at(s[0]) >= cutoff)
    ensures Recent(s, at, cutoff) == s
  {
    forall i | 0 <= i < |s|
      ensures at(s[i]) >= cutoff
    {
      assert i == 0 || at(s[0]) <= at(s[i]);
    }
    RecentAll(s, at, cutoff);
  }

  /** In time order, dropping the stale elements drops a prefix. */
  lemma {:induction false} RecentIsSuffix<T>(s: seq<T>, at: T -> int, cutoff: int)
    requires InOrder(s, at)
    ensures Recent(s, at, cutoff) == s[|s| - |Recent(s, at, cutoff)|..]
    ensures forall i :: 0 <= i < |s| - |Recent(s, at, cutoff)| ==> at(s[i]) < cutoff
  {
    if s != [] {
      if at(s[0]) >= cutoff {
        RecentFromHead(s, at, cutoff);
        assert s[0..] == s;
      } else {
        RecentIsSuffix(s[1..], at, cutoff);
        var rest := Recent(s[1..], at, cutoff);
        assert [] + rest == rest;
        assert s[1..][|s| - 1 - |rest|..] == s[|s| - |rest|..];
        assert forall i :: 1 <= i < |s| ==> s[i] == s[1..][i - 1];
      }
    }
  }

  lemma RecentInOrder<T>(s: seq<T>, at: T -> int, cutoff: int)
    requires InOrder(s, at)
    ensures InOrder(Recent(s, at, cutoff), at)
  {
    RecentIsSuffix(s, at, cutoff);
  }

  lemma {:induction false} RecentMember<T>(s: seq<T>, at: T -> int, cutoff: int, x: T)
    ensures x in Recent(s, at, cutoff) <==> x in s && at(x) >= cutoff
  {
    if s != [] {
      RecentMember(s[1..], at, cutoff, x);
      HeadSplit(s);
    }
  }

  /** Cutting twice is cutting at the later point. */
  lemma {:induction false} RecentTwice<T>(s: seq<T>, at: T -> int, c: int, d: int)
    requires c <= d
    ensures Recent(Recent(s, at, c), at, d) == Recent(s, at, d)
  {
    if s != [] {
      RecentTwice(s[1..], at, c, d);
      if at(s[0]) >= c {
        assert ([s[0]] + Recent(s[1..], at, c))[1..] == Recent(s[1..], at, c);
      } else {
        assert [] + Recent(s[1..], at, c) == Recent(s[1..], at, c);
      }
    }
  }

  // ── Popping off the front ─────────────────────────────────────────────────

  /** What is left once the front is recent. */
  function Popped<T>(s: seq<T>, at: T -> int, cutoff: int): (r: seq<T>)
    ensures |r| <= |s|
    ensures r == s[|s| - |r|..]
    ensures forall i :: 0 <= i < |s| - |r| ==> at(s[i]) < cutoff
    ensures r != [] ==> at(r[0]) >= cutoff
  {
    if s == [] || at(s[0]) >= cutoff then s else Popped(s[1..], at, cutoff)
  }

  /** The source's loops: they look at the front only, whatever the order behind it. */
  method PopStale<T>(s: seq<T>, at: T -> int, cutoff: int) returns (r: seq<T>)
    ensures r == Popped(s, at, cutoff)
  {
    r := s;
    while r != [] && at(r[0]) < cutoff
      invariant Popped(r, at, cutoff) == Popped(s, at, cutoff)
      decreases |r|
    {
      r := r[1..];
    }
  }

  /** Nothing stale stands behind something recent. */
  ghost predicate NoStaleBehind<T>(s: seq<T>, at: T -> int, cutoff: int) {
    forall i, j :: 0 <= i < j < |s| && at(s[i]) >= cutoff ==> at(s[j]) >= cutoff
  }

  lemma {:induction false} RecentParts<T>(a: seq<T>, b: seq<T>, at: T -> int, cutoff: int)
    ensures Recent(a + b, at, cutoff) == Recent(a, at, cutoff) + Recent(b, at, cutoff)
  {
    if a == [] {
      assert a + b == b;
    } else {
      hide Recent;
      var rest := a[1..];
      RecentParts(rest, b, at, cutoff);
      HeadSplit(a);
      RecentCons(a[0], rest, at, cutoff);
      Associative([a[0]], rest, b);
      RecentCons(a[0], rest + b, at, cutoff);
      Associative([a[0]], Recent(rest, at, cutoff), Recent(b, at, cutoff));
    }
  }

  lemma {:induction false} RecentNone<T>(s: seq<T>, at: T -> int, cutoff: int)
    requires forall i :: 0 <= i < |s| ==> at(s[i]) < cutoff
    ensures Recent(s, at, cutoff) == []
  {
    if s != [] {
      RecentNone(s[1..], at, cutoff);
    }
  }

  lemma RecentIsAll<T>(s: seq<T>, at: T -> int, cutoff: int)
    ensures Recent(s, at, cutoff) == s <==> forall i :: 0 <= i < |s| ==> at(s[i]) >= cutoff
  {
    hide Recent;
    if forall i :: 0 <= i < |s| ==> at(s[i]) >= cutoff {
      RecentAll(s, at, cutoff);
    }
    if Recent(s, at, cutoff) == s {
      forall i | 0 <= i < |s|
        ensures at(s[i]) >= cutoff
      {
        RecentMember(s, at, cutoff, s[i]);
      }
    }
  }

  /** What filtering keeps of a queue is what it keeps of the popped queue. */
  lemma RecentOfPopped<T>(s: seq<T>, at: T -> int, cutoff: int)
    ensures Recent(Popped(s, at, cutoff), at, cutoff) == Recent(s, at, cutoff)
  {
    hide Recent, Popped;
    var r := Popped(s, at, cutoff);
    var k := |s| - |r|;
    RecentNone(s[..k], at, cutoff);
    RecentParts(s[..k], r, at, cutoff);
    assert s == s[..k] + r;
    assert [] + Recent(r, at, cutoff) == Recent(r, at, cutoff);
  }

  lemma OrderFrom<T>(s: seq<T>, k: nat, at: T -> int, cutoff: int)
    requires k <= |s| && forall i :: 0 <= i < k ==> at(s[i]) < cutoff
    requires k < |s| ==> at(s[k]) >= cutoff
    ensures NoStaleBehind(s, at, cutoff) <==> forall i :: k <= i < |s| ==> at(s[i]) >= cutoff
  {
    if NoStaleBehind(s, at, cutoff) {
      forall i | k <= i < |s|
        ensures at(s[i]) >= cutoff
      {
        assert i == k || at(s[k]) >= cutoff;
      }
    }
  }

  lemma PoppedOrder<T>(s: seq<T>, at: T -> int, cutoff: int)
    ensures NoStaleBehind(s, at, cutoff)
            <==> forall i :: 0 <= i < |Popped(s, at, cutoff)| ==> at(Popped(s, at, cutoff)[i]) >= cutoff
  {
    hide Popped, NoStaleBehind;
    var r := Popped(s, at, cutoff);
    var k := |s| - |r|;
    OrderFrom(s, k, at, cutoff);
    forall i | k <= i < |s|
      ensures s[i] == r[i - k]
    {
    }
  }

  /** Popping off the front is filtering exactly when nothing stale stands behind something recent. */
  lemma PoppedIsRecent<T>(s: seq<T>, at: T -> int, cutoff: int)
    ensures Popped(s, at, cutoff) == Recent(s, at, cutoff) <==> NoStaleBehind(s, at, cutoff)
  {
    hide Popped, Recent, NoStaleBehind;
    RecentOfPopped(s, at, cutoff);
    RecentIsAll(Popped(s, at, cutoff), at, cutoff);
    PoppedOrder(s, at, cutoff);
  }

  /** Popping filters at every cutoff exactly when the stamps are in order. */
  lemma PoppedAlwaysRecent<T>(s: seq<T>, at: T -> int)
    ensures (forall c :: Popped(s, at, c) == Recent(s, at, c)) <==> InOrder(s, at)
  {
    hide Recent;
    if InOrder(s, at) {
      forall c: int
        ensures Popped(s, at, c) == Recent(s, at, c)
      {
        PoppedIsRecent(s, at, c);
      }
    } else {
      var i, j :| 0 <= i < j < |s| && at(s[i]) > at(s[j]);
      PoppedIsRecent(s, at, at(s[i]));
    }
  }

  // ── A moving cutoff ───────────────────────────────────────────────────────

  /** Behind an element kept at both cutoffs nothing is stale at the second. */
  ghost predicate KeepsOrder<T>(s: seq<T>, at: T -> int, was: int, cutoff: int) {
    forall i, j :: 0 <= i < j < |s| && at(s[i]) >= was && at(s[i]) >= cutoff ==> at(s[j]) >= cutoff
  }

  /** What was stale at the first cutoff still is at the second. */
  ghost predicate StaysGone<T>(s: seq<T>, at: T -> int, was: int, cutoff: int) {
    forall i :: 0 <= i < |s| && at(s[i]) < was ==> at(s[i]) < cutoff
  }

  /** When the recent elements are the tail from `f` on, they are exactly those. */
  lemma RecentTail<T>(s: seq<T>, f: nat, at: T -> int, was: int)
    requires f <= |s| && s[f..] == Recent(s, at, was)
    ensures forall i :: 0 <= i < |s| ==> (f <= i <==> at(s[i]) >= was)
  {
    hide Recent;
    var gone, tail := s[..f], s[f..];
    forall i | f <= i < |s|
      ensures at(s[i]) >= was
    {
      assert tail[i - f] == s[i];
      RecentMember(s, at, was, s[i]);
    }
    RecentAll(tail, at, was);
    RecentParts(gone, tail, at, was);
    assert s == gone + tail;
    assert Recent(gone, at, was) == [];
    forall i | 0 <= i < f
      ensures at(s[i]) < was
    {
      assert gone[i] == s[i];
      RecentMember(gone, at, was, s[i]);
    }
  }

  /**
   * A queue that holds exactly the recent elements at one cutoff holds exactly those at the
   * next, after popping, if and only if the move of the cutoff leaves nothing stale behind
   * a kept element and makes nothing recent again.
   */
  lemma PopExact<T>(s: seq<T>, f: nat, at: T -> int, was: int, cutoff: int)
    requires f <= |s| && s[f..] == Recent(s, at, was)
    ensures Popped(s[f..], at, cutoff) == Recent(s, at, cutoff)
            <==> KeepsOrder(s, at, was, cutoff) && StaysGone(s, at, was, cutoff)
  {
    hide Popped, Recent, NoStaleBehind, KeepsOrder;
    RecentTail(s, f, at, was);
    TailOrder(s, f, at, was, cutoff);
    PoppedIsRecent(s[f..], at, cutoff);
    if StaysGone(s, at, was, cutoff) {
      TailRecent(s, f, at, cutoff);
    } else {
      var i :| 0 <= i < |s| && at(s[i]) < was && at(s[i]) >= cutoff;
      RecentMember(s, at, cutoff, s[i]);
      PoppedMembers(s[f..], at, cutoff);
      forall k | f <= k < |s|
        ensures s[k] != s[i]
      {
      }
    }
  }

  lemma PoppedMembers<T>(s: seq<T>, at: T -> int, cutoff: int)
    ensures forall x :: x in Popped(s, at, cutoff) ==> x in s
  {
  }

  lemma TailRecent<T>(s: seq<T>, f: nat, at: T -> int, cutoff: int)
    requires f <= |s| && forall i :: 0 <= i < f ==> at(s[i]) < cutoff
    ensures Recent(s, at, cutoff) == Recent(s[f..], at, cutoff)
  {
    hide Recent;
    RecentNone(s[..f], at, cutoff);
    RecentParts(s[..f], s[f..], at, cutoff);
    assert s == s[..f] + s[f..];
    assert [] + Recent(s[f..], at, cutoff) == Recent(s[f..], at, cutoff);
  }

  /** Cutting at one point and then another is cutting at the second exactly when nothing cut off comes back. */
  lemma RecentThenRecent<T>(s: seq<T>, at: T -> int, was: int, cutoff: int)
    ensures Recent(Recent(s, at, was), at, cutoff) == Recent(s, at, cutoff) <==> StaysGone(s, at, was, cutoff)
  {
    if StaysGone(s, at, was, cutoff) {
      RecentOfRecent(s, at, was, cutoff);
    } else {
      hide Recent;
      var i :| 0 <= i < |s| && at(s[i]) < was && at(s[i]) >= cutoff;
      RecentMember(s, at, cutoff, s[i]);
      RecentMember(s, at, was, s[i]);
      RecentMember(Recent(s, at, was), at, cutoff, s[i]);
    }
  }

  lemma {:induction false} RecentOfRecent<T>(s: seq<T>, at: T -> int, was: int, cutoff: int)
    requires StaysGone(s, at, was, cutoff)
    ensures Recent(Recent(s, at, was), at, cutoff) == Recent(s, at, cutoff)
  {
    if s != [] {
      hide Recent;
      var h, rest := s[0], s[1..];
      HeadSplit(s);
      assert forall i :: 0 <= i < |rest| ==> rest[i] == s[i + 1];
      RecentOfRecent(rest, at, was, cutoff);
      RecentCons(h, rest, at, was);
      RecentCons(h, rest, at, cutoff);
      RecentCons(h, Recent(rest, at, was), at, cutoff);
    } else {
      NoneRecent(at, was);
    }
  }

  lemma NoneRecent<T>(at: T -> int, cutoff: int)
    ensures Recent([], at, cutoff) == []
  {
  }

  lemma TailOrder<T>(s: seq<T>, f: nat, at: T -> int, was: int, cutoff: int)
    requires f <= |s| && forall i :: 0 <= i < |s| ==> (f <= i <==> at(s[i]) >= was)
    ensures NoStaleBehind(s[f..], at, cutoff) <==> KeepsOrder(s, at, was, cutoff)
  {
    var tail := s[f..];
    if NoStaleBehind(tail, at, cutoff) {
      forall i, j | 0 <= i < j < |s| && at(s[i]) >= was && at(s[i]) >= cutoff
        ensures at(s[j]) >= cutoff
      {
        assert tail[i - f] == s[i] && tail[j - f] == s[j];
      }
    }
  }

  /** `now.saturating_sub(span)` */
  function SaturatingSub(now: nat, span: nat): nat {
    if now >= span then now - span else 0
  }
}
