/** What a sliding-window limiter is for: decisions by the full history, and the bound they keep. */
module RateLimits {
  import opened Prelude
  import opened Selecting
  import opened Windows

  datatype Request = Request(key: string, now: nat)

  /** `limit` acceptances per `window`; `inclusive` when a window still counts its oldest instant. */
  datatype Rule = Rule(limit: nat, window: nat, inclusive: bool)

  function Id(t: int): int {
    t
  }

  /** The oldest time a window ending at `now` counts. */
  function Cutoff(rule: Rule, now: nat): int {
    if rule.inclusive then SaturatingSub(now, rule.window) else now - rule.window + 1
  }

  // ── Specification over the full history ───────────────────────────────────

  /** Fewer than `limit` acceptances lie in the window. */
  predicate Allows(rule: Rule, accepted: seq<int>, now: nat) {
    |Recent(accepted, Id, Cutoff(rule, now))| < rule.limit
  }

  /** The accepted times of one key over a history of requests. */
  function Accepted(rule: Rule, requests: seq<Request>, key: string): seq<int> {
    if requests == [] then []
    else
      var before, r := Accepted(rule, requests[..|requests| - 1], key), requests[|requests| - 1];
      if r.key == key && Allows(rule, before, r.now) then before + [r.now] else before
  }

  predicate Monotone(requests: seq<Request>) {
    forall i, j :: 0 <= i < j < |requests| ==> requests[i].now <= requests[j].now
  }

  /** Any `limit + 1` consecutive acceptances span more than a window (at least one, when exclusive). */
  predicate Bounded(rule: Rule, accepted: seq<int>) {
    forall i :: 0 <= i && i + rule.limit < |accepted| ==>
                  accepted[i + rule.limit] >= accepted[i] + rule.window + (if rule.inclusive then 1 else 0)
  }

  lemma {:induction false} AcceptedInOrder(rule: Rule, requests: seq<Request>, key: string)
    requires Monotone(requests)
    ensures InOrder(Accepted(rule, requests, key), Id)
    ensures forall i :: 0 <= i < |Accepted(rule, requests, key)| ==>
                          0 <= Accepted(rule, requests, key)[i] <= requests[|requests| - 1].now
  {
    if requests != [] {
      var n := |requests| - 1;
      AcceptedInOrder(rule, requests[..n], key);
    }
  }

  /** The acceptance `limit` places back lies outside the window that ends at `now`. */
  predicate ClearOf(rule: Rule, accepted: seq<int>, now: nat) {
    |accepted| >= rule.limit && rule.limit > 0 ==>
      now >= accepted[|accepted| - rule.limit] + rule.window + (if rule.inclusive then 1 else 0)
  }

  /** One more acceptance keeps the bound exactly when the one `limit` places back is out of its window. */
  lemma AcceptKeepsBound(rule: Rule, accepted: seq<int>, now: nat)
    requires Bounded(rule, accepted) && rule.limit > 0
    ensures Bounded(rule, accepted + [now]) <==> ClearOf(rule, accepted, now)
  {
    var longer := accepted + [now];
    if Bounded(rule, longer) && |accepted| >= rule.limit {
      var i := |accepted| - rule.limit;
      assert longer[i + rule.limit] == now && longer[i] == accepted[i];
    }
  }

  lemma BoundedSnoc(rule: Rule, accepted: seq<int>, now: nat)
    requires NoStaleBehind(accepted, Id, Cutoff(rule, now)) && Bounded(rule, accepted) && Allows(rule, accepted, now)
    requires forall i :: 0 <= i < |accepted| ==> 0 <= accepted[i]
    ensures Bounded(rule, accepted + [now])
  {
    hide Popped, Recent, NoStaleBehind;
    PoppedIsRecent(accepted, Id, Cutoff(rule, now));
    if |accepted| >= rule.limit {
      assert Id(accepted[|accepted| - rule.limit]) < Cutoff(rule, now);
    }
    AcceptKeepsBound(rule, accepted, now);
  }

  lemma OrderHasNoStaleBehind(s: seq<int>, cutoff: int)
    requires InOrder(s, Id)
    ensures NoStaleBehind(s, Id, cutoff)
  {
  }

  /** Counting by the full history, requests in order of time keep the bound. */
  lemma {:induction false} OrderedBound(rule: Rule, requests: seq<Request>, key: string)
    requires Monotone(requests)
    ensures Bounded(rule, Accepted(rule, requests, key))
  {
    if requests != [] {
      var n := |requests| - 1;
      var before, r := Accepted(rule, requests[..n], key), requests[n];
      OrderedBound(rule, requests[..n], key);
      AcceptedInOrder(rule, requests[..n], key);
      if r.key == key && Allows(rule, before, r.now) {
        OrderHasNoStaleBehind(before, Cutoff(rule, r.now));
        BoundedSnoc(rule, before, r.now);
      }
    }
  }

  // ── Any window of time ────────────────────────────────────────────────────

  /** The times from `a` to `b`. */
  function InSpan(times: seq<int>, a: int, b: int): (r: seq<int>)
    ensures |r| <= |times|
  {
    if times == [] then []
    else
      var n := |times| - 1;
      InSpan(times[..n], a, b) + if a <= times[n] <= b then [times[n]] else []
  }

  lemma InSpanSnoc(times: seq<int>, t: int, a: int, b: int)
    ensures InSpan(times + [t], a, b) == InSpan(times, a, b) + if a <= t <= b then [t] else []
  {
    var longer := times + [t];
    assert longer[|longer| - 1] == t && longer[..|longer| - 1] == times;
  }

  /** The last time of a window that starts at `a`. */
  function WindowEnd(rule: Rule, a: int): int {
    a + rule.window - if rule.inclusive then 0 else 1
  }

  /** No window of time, wherever it starts, holds more than `limit` of the times. */
  ghost predicate AnyWindow(rule: Rule, times: seq<int>) {
    forall a: int :: |InSpan(times, a, WindowEnd(rule, a))| <= rule.limit
  }

  /** Every window that holds `now` has room for it. */
  ghost predicate RoomAt(rule: Rule, times: seq<int>, now: int) {
    forall a: int :: a <= now <= WindowEnd(rule, a) ==> |InSpan(times, a, WindowEnd(rule, a))| < rule.limit
  }

  /** One more time keeps every window within the limit exactly when each window that holds it has room. */
  lemma OneMore(rule: Rule, times: seq<int>, now: int)
    requires AnyWindow(rule, times)
    ensures AnyWindow(rule, times + [now]) <==> RoomAt(rule, times, now)
  {
    hide InSpan, WindowEnd;
    forall a: int
      ensures |InSpan(times + [now], a, WindowEnd(rule, a))|
              == |InSpan(times, a, WindowEnd(rule, a))| + if a <= now <= WindowEnd(rule, a) then 1 else 0
    {
      InSpanSnoc(times, now, a, WindowEnd(rule, a));
    }
  }

  /** A span holds no more than what is recent from its start on. */
  lemma {:induction false} SpanWithinRecent(times: seq<int>, a: int, b: int, cutoff: int)
    requires forall i :: 0 <= i < |times| && times[i] >= a ==> times[i] >= cutoff
    ensures |InSpan(times, a, b)| <= |Recent(times, Id, cutoff)|
  {
    if times != [] {
      hide Recent;
      var n := |times| - 1;
      SpanWithinRecent(times[..n], a, b, cutoff);
      RecentSnoc(times[..n], times[n], Id, cutoff);
      LastSplit(times);
    }
  }

  lemma AllowedHasRoom(rule: Rule, times: seq<int>, now: nat)
    requires Allows(rule, times, now) && forall i :: 0 <= i < |times| ==> 0 <= times[i]
    ensures RoomAt(rule, times, now)
  {
    hide Recent, InSpan;
    forall a: int | a <= now <= WindowEnd(rule, a)
      ensures |InSpan(times, a, WindowEnd(rule, a))| < rule.limit
    {
      SpanWithinRecent(times, a, WindowEnd(rule, a), Cutoff(rule, now));
    }
  }

  lemma {:induction false} AcceptedNat(rule: Rule, requests: seq<Request>, key: string)
    ensures forall i :: 0 <= i < |Accepted(rule, requests, key)| ==> 0 <= Accepted(rule, requests, key)[i]
  {
    if requests != [] {
      AcceptedNat(rule, requests[..|requests| - 1], key);
    }
  }

  /**
   * Counting by the full history, no window of time holds more than `limit` acceptances of a
   * key, over every run and in whatever order the request times come.
   */
  lemma {:induction false} WindowBound(rule: Rule, requests: seq<Request>, key: string)
    ensures AnyWindow(rule, Accepted(rule, requests, key))
  {
    if requests != [] {
      hide AnyWindow, Allows, RoomAt;
      var before, r := Accepted(rule, requests[..|requests| - 1], key), requests[|requests| - 1];
      WindowBound(rule, requests[..|requests| - 1], key);
      AcceptedNat(rule, requests[..|requests| - 1], key);
      if r.key == key && Allows(rule, before, r.now) {
        AllowedHasRoom(rule, before, r.now);
        OneMore(rule, before, r.now);
      }
    } else {
      NoTimes(rule);
    }
  }

  lemma NoTimes(rule: Rule)
    ensures AnyWindow(rule, [])
  {
  }

  /** In order of time, a span that reaches the last time is what is recent from its start on. */
  lemma {:induction false} SpanIsRecent(times: seq<int>, a: int, b: int)
    requires forall i :: 0 <= i < |times| ==> times[i] <= b
    ensures InSpan(times, a, b) == Recent(times, Id, a)
  {
    if times != [] {
      hide Recent;
      var n := |times| - 1;
      SpanIsRecent(times[..n], a, b);
      RecentSnoc(times[..n], times[n], Id, a);
      LastSplit(times);
    }
  }

  /** In order of time, a window with the next time has room exactly when the time `limit` places back is out of it. */
  lemma ClearIsRoom(rule: Rule, times: seq<int>, now: nat)
    requires InOrder(times, Id) && rule.limit > 0 && forall i :: 0 <= i < |times| ==> times[i] <= now
    ensures RoomAt(rule, times, now) <==> ClearOf(rule, times, now)
  {
    hide Recent, InSpan;
    forall a: int | a <= now <= WindowEnd(rule, a)
      ensures |InSpan(times, a, WindowEnd(rule, a))| < rule.limit
              <==> (|times| >= rule.limit ==> times[|times| - rule.limit] < a)
    {
      SpanIsRecent(times, a, WindowEnd(rule, a));
      RecentIsSuffix(times, Id, a);
      var r := Recent(times, Id, a);
      if |times| >= rule.limit && |r| >= rule.limit {
        assert r[|r| - rule.limit] == times[|times| - rule.limit];
        RecentMember(times, Id, a, r[|r| - rule.limit]);
      }
      if |times| >= rule.limit && |r| < rule.limit {
        assert Id(times[|times| - rule.limit]) < a;
      }
    }
    if RoomAt(rule, times, now) && |times| >= rule.limit && (rule.inclusive || rule.window > 0) {
      var a: int := now - rule.window + if rule.inclusive then 0 else 1;
      assert a <= now <= WindowEnd(rule, a);
    }
  }

  /** In order of time the bound on consecutive acceptances is the bound on every window. */
  lemma {:induction false} BoundedIsAnyWindow(rule: Rule, times: seq<int>)
    requires InOrder(times, Id) && rule.limit > 0 && forall i :: 0 <= i < |times| ==> 0 <= times[i]
    ensures Bounded(rule, times) <==> AnyWindow(rule, times)
  {
    hide AnyWindow, RoomAt, ClearOf, Bounded;
    if times == [] {
      NoTimes(rule);
      NothingBounded(rule);
    } else {
      var n := |times| - 1;
      BoundedIsAnyWindow(rule, times[..n]);
      LastSplit(times);
      ClearIsRoom(rule, times[..n], times[n]);
      PrefixBounds(rule, times[..n], times[n]);
      if Bounded(rule, times[..n]) {
        AcceptKeepsBound(rule, times[..n], times[n]);
        OneMore(rule, times[..n], times[n]);
      }
    }
  }

  lemma NothingBounded(rule: Rule)
    ensures Bounded(rule, [])
  {
  }

  lemma PrefixBounds(rule: Rule, times: seq<int>, t: int)
    ensures Bounded(rule, times + [t]) ==> Bounded(rule, times)
    ensures AnyWindow(rule, times + [t]) ==> AnyWindow(rule, times)
  {
    hide InSpan, WindowEnd;
    if Bounded(rule, times + [t]) {
      forall i | 0 <= i && i + rule.limit < |times|
        ensures times[i + rule.limit] >= times[i] + rule.window + (if rule.inclusive then 1 else 0)
      {
        assert (times + [t])[i] == times[i] && (times + [t])[i + rule.limit] == times[i + rule.limit];
      }
    }
    if AnyWindow(rule, times + [t]) {
      forall a: int
        ensures |InSpan(times, a, WindowEnd(rule, a))| <= rule.limit
      {
        InSpanSnoc(times, t, a, WindowEnd(rule, a));
        assert |InSpan(times + [t], a, WindowEnd(rule, a))| <= rule.limit;
      }
    }
  }

  function OnlyKey(requests: seq<Request>, key: string): seq<Request> {
    if requests == [] then []
    else OnlyKey(requests[..|requests| - 1], key)
         + (if requests[|requests| - 1].key == key then [requests[|requests| - 1]] else [])
  }

  /** What one key gets does not depend on any other key's requests. */
  lemma {:induction false} KeysAreIndependent(rule: Rule, requests: seq<Request>, key: string)
    ensures Accepted(rule, OnlyKey(requests, key), key) == Accepted(rule, requests, key)
  {
    if requests != [] {
      var n := |requests| - 1;
      KeysAreIndependent(rule, requests[..n], key);
      var own := OnlyKey(requests[..n], key);
      if requests[n].key == key {
        var longer := own + [requests[n]];
        assert longer[|longer| - 1] == requests[n] && longer[..|longer| - 1] == own;
      } else {
        assert own + [] == own;
      }
    }
  }

  // ── Shared by the limiters ────────────────────────────────────────────────

  function WindowOf(windows: map<string, seq<int>>, key: string): seq<int> {
    if key in windows then windows[key] else []
  }

  lemma {:induction false} AcceptedSnoc(rule: Rule, requests: seq<Request>, r: Request, key: string)
    ensures Accepted(rule, requests + [r], key)
            == if r.key == key && Allows(rule, Accepted(rule, requests, key), r.now)
               then Accepted(rule, requests, key) + [r.now] else Accepted(rule, requests, key)
  {
    var longer := requests + [r];
    assert longer[|longer| - 1] == r && longer[..|longer| - 1] == requests;
  }

  lemma CutoffMonotone(rule: Rule, clock: nat, now: nat)
    requires clock <= now
    ensures Cutoff(rule, clock) <= Cutoff(rule, now)
  {
  }

  /** The time of a key's last request. */
  function LastTime(requests: seq<Request>, key: string): nat {
    if requests == [] then 0
    else if requests[|requests| - 1].key == key then requests[|requests| - 1].now
    else LastTime(requests[..|requests| - 1], key)
  }

  lemma {:induction false} LastTimeBound(requests: seq<Request>, key: string, now: nat)
    requires forall i :: 0 <= i < |requests| ==> requests[i].now <= now
    ensures LastTime(requests, key) <= now
  {
    if requests != [] {
      LastTimeBound(requests[..|requests| - 1], key, now);
    }
  }

  /** Each decision counts exactly the requesting key's own acceptances in the window. */
  function Decisions(rule: Rule, requests: seq<Request>): seq<bool> {
    if requests == [] then []
    else
      var before, r := requests[..|requests| - 1], requests[|requests| - 1];
      Decisions(rule, before) + [Allows(rule, Accepted(rule, before, r.key), r.now)]
  }

  // ── What the decisions come to, in literal times ──────────────────────────

  /** No more than a window old; an exclusive window no longer counts its oldest instant. */
  function InWindow(rule: Rule, now: nat): int -> bool {
    t => if rule.inclusive then now <= t + rule.window else now < t + rule.window
  }

  lemma CutoffMeans(rule: Rule, now: nat, t: int)
    requires t >= 0
    ensures t >= Cutoff(rule, now) <==> InWindow(rule, now)(t)
  {
  }

  lemma {:induction false} RecentIsInWindow(rule: Rule, times: seq<int>, now: nat)
    requires forall i :: 0 <= i < |times| ==> times[i] >= 0
    ensures Recent(times, Id, Cutoff(rule, now)) == Filter(times, InWindow(rule, now))
  {
    if times != [] {
      hide Cutoff, InWindow;
      RecentIsInWindow(rule, times[1..], now);
      CutoffMeans(rule, now, times[0]);
    }
  }

  /** One more is allowed exactly when fewer than `limit` acceptances are in the window. */
  lemma AllowsCounts(rule: Rule, times: seq<int>, now: nat)
    requires forall i :: 0 <= i < |times| ==> times[i] >= 0
    ensures Allows(rule, times, now) <==> |Filter(times, InWindow(rule, now))| < rule.limit
  {
    RecentIsInWindow(rule, times, now);
  }

  function Between(a: int, b: int): int -> bool {
    t => a <= t <= b
  }

  lemma {:induction false} InSpanSelects(times: seq<int>, a: int, b: int)
    ensures Selects(times, InSpan(times, a, b), Between(a, b))
  {
    hide Selects;
    SelectsNone(Between(a, b));
    if times != [] {
      var n := |times| - 1;
      InSpanSelects(times[..n], a, b);
      LastSplit(times);
      SelectsSnoc(times[..n], times[n], InSpan(times[..n], a, b), Between(a, b));
    }
  }

  lemma {:induction false} FilterAlike<T>(s: seq<T>, p: T -> bool, q: T -> bool)
    requires forall x :: x in s ==> p(x) == q(x)
    ensures Filter(s, p) == Filter(s, q)
  {
    if s != [] {
      FilterAlike(s[1..], p, q);
    }
  }

  /** With none in the future, one more is allowed exactly when fewer than `limit` lie between the window's ends. */
  lemma AllowsSpan(rule: Rule, times: seq<int>, now: nat)
    requires forall i :: 0 <= i < |times| ==> 0 <= times[i] <= now
    ensures Allows(rule, times, now)
            <==> |InSpan(times, now - rule.window + if rule.inclusive then 0 else 1, now)| < rule.limit
  {
    hide Selects;
    var from := now - rule.window + if rule.inclusive then 0 else 1;
    AllowsCounts(rule, times, now);
    InSpanSelects(times, from, now);
    SelectsIsFilter(times, InSpan(times, from, now), Between(from, now));
    FilterAlike(times, InWindow(rule, now), Between(from, now));
  }

  /** The earlier requests of a key that were let through and are in the window of `r`. */
  function Earlier(rule: Rule, requests: seq<Request>, decisions: seq<bool>, n: nat, r: Request): set<int>
    requires n <= |requests| && n <= |decisions|
  {
    set j | 0 <= j < n && decisions[j] && requests[j].key == r.key && InWindow(rule, r.now)(requests[j].now)
  }

  /**
   * The sliding window: a request is let through exactly when fewer than `limit` requests of
   * its key were let through before it that are in its window.
   */
  ghost predicate ByWindow(rule: Rule, requests: seq<Request>, decisions: seq<bool>) {
    && |decisions| == |requests|
    && forall k :: 0 <= k < |requests| ==>
         (decisions[k] <==> |Earlier(rule, requests, decisions, k, requests[k])| < rule.limit)
  }

  lemma {:induction false} AcceptedAreTimes(rule: Rule, requests: seq<Request>, key: string)
    ensures forall i :: 0 <= i < |Accepted(rule, requests, key)| ==> Accepted(rule, requests, key)[i] >= 0
  {
    if requests != [] {
      AcceptedAreTimes(rule, requests[..|requests| - 1], key);
    }
  }

  lemma {:induction false} DecisionsLength(rule: Rule, requests: seq<Request>)
    ensures |Decisions(rule, requests)| == |requests|
  {
    if requests != [] {
      DecisionsLength(rule, requests[..|requests| - 1]);
    }
  }

  lemma {:induction false} DecisionAt(rule: Rule, requests: seq<Request>, k: nat)
    requires k < |requests|
    ensures |Decisions(rule, requests)| == |requests|
    ensures Decisions(rule, requests)[k]
            <==> Allows(rule, Accepted(rule, requests[..k], requests[k].key), requests[k].now)
  {
    hide Allows, Accepted;
    var n := |requests| - 1;
    DecisionsLength(rule, requests[..n]);
    if k < n {
      DecisionAt(rule, requests[..n], k);
      assert requests[..n][..k] == requests[..k];
    }
  }

  lemma FilterSnoc(s: seq<int>, x: int, keep: int -> bool)
    ensures Filter(s + [x], keep) == Filter(s, keep) + if keep(x) then [x] else []
  {
    hide Selects;
    FilterSelects(s, keep);
    SelectsSnoc(s, x, Filter(s, keep), keep);
    SelectsIsFilter(s + [x], Filter(s, keep) + if keep(x) then [x] else [], keep);
  }

  /** The acceptances in a window are as many as the requests let through that are in it. */
  lemma {:induction false} EarlierCounts(rule: Rule, requests: seq<Request>, decisions: seq<bool>, n: nat, r: Request)
    requires n <= |requests| == |decisions| && decisions == Decisions(rule, requests)
    ensures |Earlier(rule, requests, decisions, n, r)|
            == |Filter(Accepted(rule, requests[..n], r.key), InWindow(rule, r.now))|
  {
    hide Allows, InWindow, Decisions;
    if n == 0 {
      assert Earlier(rule, requests, decisions, 0, r) == {};
    } else {
      var m, last := n - 1, requests[n - 1];
      EarlierCounts(rule, requests, decisions, m, r);
      DecisionAt(rule, requests, m);
      assert requests[..n][..m] == requests[..m] && requests[..n][m] == last;
      FilterSnoc(Accepted(rule, requests[..m], r.key), last.now, InWindow(rule, r.now));
      if decisions[m] && last.key == r.key && InWindow(rule, r.now)(last.now) {
        assert Earlier(rule, requests, decisions, n, r) == Earlier(rule, requests, decisions, m, r) + {m};
      } else {
        assert Earlier(rule, requests, decisions, n, r) == Earlier(rule, requests, decisions, m, r);
      }
    }
  }

  /** Deciding by the full history is the sliding window, in whatever order the times come. */
  lemma DecisionsByWindow(rule: Rule, requests: seq<Request>)
    ensures ByWindow(rule, requests, Decisions(rule, requests))
  {
    var decisions := Decisions(rule, requests);
    DecisionsLength(rule, requests);
    hide Allows, Accepted, Earlier, Decisions;
    forall k | 0 <= k < |requests|
      ensures decisions[k] <==> |Earlier(rule, requests, decisions, k, requests[k])| < rule.limit
    {
      DecisionAt(rule, requests, k);
      EarlierCounts(rule, requests, decisions, k, requests[k]);
      AcceptedAreTimes(rule, requests[..k], requests[k].key);
      AllowsCounts(rule, Accepted(rule, requests[..k], requests[k].key), requests[k].now);
    }
  }

  /** There is one way to decide by it. */
  lemma ByWindowOnly(rule: Rule, requests: seq<Request>, a: seq<bool>, b: seq<bool>)
    requires ByWindow(rule, requests, a) && ByWindow(rule, requests, b)
    ensures a == b
  {
    SameUpTo(rule, requests, a, b, |requests|);
    assert a[..|requests|] == a && b[..|requests|] == b;
  }

  lemma EarlierSame(rule: Rule, requests: seq<Request>, a: seq<bool>, b: seq<bool>, n: nat, r: Request)
    requires n <= |requests| && n <= |a| && n <= |b| && a[..n] == b[..n]
    ensures Earlier(rule, requests, a, n, r) == Earlier(rule, requests, b, n, r)
  {
    hide InWindow;
    forall j | 0 <= j < n
      ensures a[j] == b[j]
    {
      assert a[..n][j] == b[..n][j];
    }
  }

  lemma {:induction false} SameUpTo(rule: Rule, requests: seq<Request>, a: seq<bool>, b: seq<bool>, n: nat)
    requires ByWindow(rule, requests, a) && ByWindow(rule, requests, b) && n <= |requests|
    ensures a[..n] == b[..n]
  {
    hide Earlier;
    if n > 0 {
      SameUpTo(rule, requests, a, b, n - 1);
      EarlierSame(rule, requests, a, b, n - 1, requests[n - 1]);
      assert a[n - 1] == b[n - 1];
      assert a[..n] == a[..n - 1] + [a[n - 1]] && b[..n] == b[..n - 1] + [b[n - 1]];
    }
  }

  // ── What one purge leaves ─────────────────────────────────────────────────

  /** Times popped off the front while they are out of the window. */
  ghost predicate Leaves(rule: Rule, times: seq<int>, left: seq<int>, now: nat) {
    && |left| <= |times| && left == times[|times| - |left|..]
    && (forall i :: 0 <= i < |times| - |left| ==> !InWindow(rule, now)(times[i]))
    && (left != [] ==> InWindow(rule, now)(left[0]))
  }

  lemma PoppedLeaves(rule: Rule, times: seq<int>, now: nat)
    requires forall i :: 0 <= i < |times| ==> times[i] >= 0
    ensures Leaves(rule, times, Popped(times, Id, Cutoff(rule, now)), now)
  {
    hide Popped, Cutoff, InWindow;
    forall i | 0 <= i < |times|
      ensures times[i] >= Cutoff(rule, now) <==> InWindow(rule, now)(times[i])
    {
      CutoffMeans(rule, now, times[i]);
    }
  }
}
