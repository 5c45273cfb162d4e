/** The popping limiter (`PushRateLimiter` in node/daemon/src/notifications.rs). */
module PushLimits {
  import opened Prelude
  import opened Windows
  import opened RateLimits
  import opened Selecting

  // ── Popping under any clock ───────────────────────────────────────────────

  /** What `check_and_record` leaves of a window. */
  function NextPopped(rule: Rule, window: seq<int>, now: nat): seq<int> {
    var kept := Popped(window, Id, Cutoff(rule, now));
    if |kept| < rule.limit then kept + [now] else kept
  }

  /** The stored window of a key after a run. */
  function Stored(rule: Rule, requests: seq<Request>, key: string): seq<int> {
    if requests == [] then []
    else
      var before, r := Stored(rule, requests[..|requests| - 1], key), requests[|requests| - 1];
      if r.key == key then NextPopped(rule, before, r.now) else before
  }

  predicate Lets(rule: Rule, window: seq<int>, now: nat) {
    |Popped(window, Id, Cutoff(rule, now))| < rule.limit
  }

  /** The times the limiter lets a key through. */
  function Passed(rule: Rule, requests: seq<Request>, key: string): seq<int> {
    if requests == [] then []
    else
      var before, r := requests[..|requests| - 1], requests[|requests| - 1];
      if r.key == key && Lets(rule, Stored(rule, before, key), r.now) then Passed(rule, before, key) + [r.now]
      else Passed(rule, before, key)
  }

  predicate IsTail(window: seq<int>, accepted: seq<int>) {
    |window| <= |accepted| && window == accepted[|accepted| - |window|..]
  }

  lemma NextTail(rule: Rule, window: seq<int>, accepted: seq<int>, now: nat)
    requires IsTail(window, accepted)
    ensures IsTail(Popped(window, Id, Cutoff(rule, now)), accepted)
    ensures IsTail(NextPopped(rule, window, now), if Lets(rule, window, now) then accepted + [now] else accepted)
  {
    hide Popped, Cutoff;
    var kept := Popped(window, Id, Cutoff(rule, now));
    assert kept == accepted[|accepted| - |kept|..];
    assert kept + [now] == (accepted + [now])[|accepted| - |kept|..];
  }

  lemma {:induction false} StoredIsTail(rule: Rule, requests: seq<Request>, key: string)
    ensures IsTail(Stored(rule, requests, key), Passed(rule, requests, key))
  {
    if requests != [] {
      hide NextPopped, Lets, IsTail;
      var before, r := requests[..|requests| - 1], requests[|requests| - 1];
      StoredIsTail(rule, before, key);
      NextTail(rule, Stored(rule, before, key), Passed(rule, before, key), r.now);
    }
  }

  // ── The bound under any clock ─────────────────────────────────────────────

  /** Some request of the key came more than a window after `t` (at least one, when exclusive). */
  predicate LeftBehind(rule: Rule, requests: seq<Request>, key: string, t: int) {
    exists k :: 0 <= k < |requests| && requests[k].key == key
                && requests[k].now >= t + rule.window + (if rule.inclusive then 1 else 0)
  }

  lemma LeftBehindLonger(rule: Rule, before: seq<Request>, r: Request, key: string, t: int)
    ensures LeftBehind(rule, before, key, t) ==> LeftBehind(rule, before + [r], key, t)
    ensures r.key == key && r.now >= t + rule.window + (if rule.inclusive then 1 else 0)
            ==> LeftBehind(rule, before + [r], key, t)
  {
    var longer := before + [r];
    var end := t + rule.window + if rule.inclusive then 1 else 0;
    if k :| 0 <= k < |before| && before[k].key == key && before[k].now >= end {
      assert longer[k] == before[k];
    }
    assert longer[|before|] == r;
  }

  lemma {:induction false} DroppedAreBehind(rule: Rule, requests: seq<Request>, key: string)
    ensures forall i :: 0 <= i < |Passed(rule, requests, key)| ==> 0 <= Passed(rule, requests, key)[i]
    ensures |Stored(rule, requests, key)| <= |Passed(rule, requests, key)|
    ensures forall i :: 0 <= i < |Passed(rule, requests, key)| - |Stored(rule, requests, key)| ==>
                          LeftBehind(rule, requests, key, Passed(rule, requests, key)[i])
  {
    if requests != [] {
      hide Stored, Passed, LeftBehind;
      var before, r := requests[..|requests| - 1], requests[|requests| - 1];
      DroppedAreBehind(rule, before, key);
      LastSplit(requests);
      if r.key == key {
        DroppedNow(rule, before, r, key);
      } else {
        StoredSnoc(rule, before, r, key);
        PassedSnoc(rule, before, r, key);
        forall i | 0 <= i < |Passed(rule, before, key)| - |Stored(rule, before, key)|
          ensures LeftBehind(rule, requests, key, Passed(rule, before, key)[i])
        {
          LeftBehindLonger(rule, before, r, key, Passed(rule, before, key)[i]);
        }
      }
    } else {
      Fresh(rule, key);
    }
  }

  lemma Fresh(rule: Rule, key: string)
    ensures Stored(rule, [], key) == [] && Passed(rule, [], key) == []
  {
  }

  /** What the last request of the key drops, it has left behind. */
  lemma DroppedNow(rule: Rule, before: seq<Request>, r: Request, key: string)
    requires r.key == key
    requires forall i :: 0 <= i < |Passed(rule, before, key)| ==> 0 <= Passed(rule, before, key)[i]
    requires |Stored(rule, before, key)| <= |Passed(rule, before, key)|
    requires forall i :: 0 <= i < |Passed(rule, before, key)| - |Stored(rule, before, key)| ==>
                           LeftBehind(rule, before, key, Passed(rule, before, key)[i])
    ensures var passed, stored := Passed(rule, before + [r], key), Stored(rule, before + [r], key);
            && (forall i :: 0 <= i < |passed| ==> 0 <= passed[i])
            && |stored| <= |passed|
            && (forall i :: 0 <= i < |passed| - |stored| ==> LeftBehind(rule, before + [r], key, passed[i]))
  {
    hide Stored, Passed, LeftBehind, Popped, IsTail, Cutoff;
    var window, passed := Stored(rule, before, key), Passed(rule, before, key);
    StoredIsTail(rule, before, key);
    StoredSnoc(rule, before, r, key);
    PassedSnoc(rule, before, r, key);
    var kept := Popped(window, Id, Cutoff(rule, r.now));
    forall i | 0 <= i < |passed| - |kept|
      ensures LeftBehind(rule, before + [r], key, passed[i])
    {
      LeftBehindLonger(rule, before, r, key, passed[i]);
      if i >= |passed| - |window| {
        TailAt(window, passed, i);
        CutMeansBehind(rule, r.now, window[i - (|passed| - |window|)]);
      }
    }
  }

  lemma CutMeansBehind(rule: Rule, now: nat, t: int)
    requires 0 <= t
    ensures Id(t) < Cutoff(rule, now) ==> now >= t + rule.window + (if rule.inclusive then 1 else 0)
  {
  }

  lemma TailAt(window: seq<int>, accepted: seq<int>, i: nat)
    requires IsTail(window, accepted) && |accepted| - |window| <= i < |accepted|
    ensures window[i - (|accepted| - |window|)] == accepted[i]
  {
  }

  /**
   * Whatever the clock does, by the time a key is let through once more than the limit, some
   * request of its has come more than a window after the first of those acceptances.
   */
  lemma {:induction false} HighWaterBound(rule: Rule, requests: seq<Request>, key: string, i: nat)
    requires i + rule.limit < |Passed(rule, requests, key)|
    ensures LeftBehind(rule, requests, key, Passed(rule, requests, key)[i])
  {
    hide LeftBehind;
    var before, r := requests[..|requests| - 1], requests[|requests| - 1];
    LastSplit(requests);
    if i + rule.limit < |Passed(rule, before, key)| {
      HighWaterBound(rule, before, key, i);
      LeftBehindLonger(rule, before, r, key, Passed(rule, before, key)[i]);
    } else {
      hide NextPopped;
      DroppedAreBehind(rule, requests, key);
      NextLength(rule, Stored(rule, before, key), r.now);
    }
  }

  lemma NextLength(rule: Rule, window: seq<int>, now: nat)
    ensures Lets(rule, window, now) ==> |NextPopped(rule, window, now)| <= rule.limit
  {
  }

  // ── When popping counts as the full history does ──────────────────────────

  /**
   * The last request, if it is the key's, moves the key's clock without leaving anything stale behind or
   * recent again.
   */
  ghost predicate SteadyLast(rule: Rule, requests: seq<Request>, key: string)
    requires requests != []
  {
    var before, r := requests[..|requests| - 1], requests[|requests| - 1];
    r.key == key ==>
      && KeepsOrder(Accepted(rule, before, key), Id, Cutoff(rule, LastTime(before, key)), Cutoff(rule, r.now))
      && StaysGone(Accepted(rule, before, key), Id, Cutoff(rule, LastTime(before, key)), Cutoff(rule, r.now))
  }

  ghost predicate SteadyRun(rule: Rule, requests: seq<Request>, key: string) {
    requests == [] || (SteadyRun(rule, requests[..|requests| - 1], key) && SteadyLast(rule, requests, key))
  }

  /** The key is let through when the full history says so, and its window holds exactly the acceptances that count. */
  ghost predicate ExactAfter(rule: Rule, requests: seq<Request>, key: string) {
    && Passed(rule, requests, key) == Accepted(rule, requests, key)
    && Stored(rule, requests, key) == Recent(Accepted(rule, requests, key), Id, Cutoff(rule, LastTime(requests, key)))
  }

  ghost predicate ExactRun(rule: Rule, requests: seq<Request>, key: string) {
    ExactAfter(rule, requests, key) && (requests == [] || ExactRun(rule, requests[..|requests| - 1], key))
  }

  /** One window, popped at `now`: it counts what the full history counts exactly when the clock moved steadily. */
  lemma WindowExact(rule: Rule, window: seq<int>, accepted: seq<int>, was: nat, now: nat)
    requires IsTail(window, accepted) && window == Recent(accepted, Id, Cutoff(rule, was))
    ensures Popped(window, Id, Cutoff(rule, now)) == Recent(accepted, Id, Cutoff(rule, now))
            <==> KeepsOrder(accepted, Id, Cutoff(rule, was), Cutoff(rule, now))
                 && StaysGone(accepted, Id, Cutoff(rule, was), Cutoff(rule, now))
  {
    hide Popped, Recent, KeepsOrder, StaysGone, Cutoff;
    PopExact(accepted, |accepted| - |window|, Id, Cutoff(rule, was), Cutoff(rule, now));
  }

  lemma NowCounts(rule: Rule, now: nat)
    requires rule.inclusive || rule.window > 0
    ensures now >= Cutoff(rule, now)
  {
  }

  /** One request: both decide alike and go on alike exactly when popping kept what counts. */
  lemma NextExact(rule: Rule, window: seq<int>, accepted: seq<int>, now: nat)
    requires now >= Cutoff(rule, now)
    ensures && (Lets(rule, window, now) <==> Allows(rule, accepted, now))
            && NextPopped(rule, window, now)
               == Recent(if Allows(rule, accepted, now) then accepted + [now] else accepted, Id, Cutoff(rule, now))
            <==> Popped(window, Id, Cutoff(rule, now)) == Recent(accepted, Id, Cutoff(rule, now))
  {
    hide Popped, Recent;
    RecentSnoc(accepted, now, Id, Cutoff(rule, now));
    var kept, counted := Popped(window, Id, Cutoff(rule, now)), Recent(accepted, Id, Cutoff(rule, now));
    assert kept + [now] == counted + [now] <==> kept == counted by {
      assert (kept + [now])[..|kept|] == kept && (counted + [now])[..|counted|] == counted;
    }
  }

  lemma StepExact(rule: Rule, requests: seq<Request>, key: string)
    requires requests != [] && ExactAfter(rule, requests[..|requests| - 1], key)
    requires rule.inclusive || rule.window > 0
    ensures ExactAfter(rule, requests, key) <==> SteadyLast(rule, requests, key)
  {
    hide Popped, Recent, KeepsOrder, StaysGone, Cutoff, Lets, Allows, NextPopped, IsTail;
    var before, r := requests[..|requests| - 1], requests[|requests| - 1];
    if r.key == key {
      StoredIsTail(rule, before, key);
      NowCounts(rule, r.now);
      var accepted := Accepted(rule, before, key);
      WindowExact(rule, Stored(rule, before, key), accepted, LastTime(before, key), r.now);
      NextExact(rule, Stored(rule, before, key), accepted, r.now);
      assert |accepted + [r.now]| != |accepted|;
    }
  }

  /**
   * Over any run under any clock the limiter lets a key through as the full history says,
   * and keeps exactly what counts, if and only if the key's requests move its clock steadily.
   */
  lemma {:induction false} RunExact(rule: Rule, requests: seq<Request>, key: string)
    requires rule.inclusive || rule.window > 0
    ensures ExactRun(rule, requests, key) <==> SteadyRun(rule, requests, key)
  {
    hide ExactAfter, SteadyLast;
    if requests == [] {
      assert ExactAfter(rule, [], key) by {
        NothingExact(rule, key);
      }
    } else {
      RunExact(rule, requests[..|requests| - 1], key);
      if ExactRun(rule, requests[..|requests| - 1], key) {
        assert ExactAfter(rule, requests[..|requests| - 1], key);
        StepExact(rule, requests, key);
      }
    }
  }

  lemma NothingExact(rule: Rule, key: string)
    ensures ExactAfter(rule, [], key)
  {
  }

  lemma {:induction false} MonotoneIsSteady(rule: Rule, requests: seq<Request>, key: string)
    requires Monotone(requests)
    ensures SteadyRun(rule, requests, key)
  {
    if requests != [] {
      hide Accepted, Cutoff;
      var before, r := requests[..|requests| - 1], requests[|requests| - 1];
      MonotoneIsSteady(rule, before, key);
      AcceptedInOrder(rule, before, key);
      LastTimeBound(before, key, r.now);
      CutoffMonotone(rule, LastTime(before, key), r.now);
    }
  }

  /** Steady requests are bounded: the sliding-window bound needs no more of the clock. */
  lemma {:induction false} SteadyBound(rule: Rule, requests: seq<Request>, key: string)
    requires SteadyRun(rule, requests, key) && rule.inclusive
    ensures Bounded(rule, Passed(rule, requests, key))
  {
    if requests != [] {
      hide Popped, Recent, Bounded, Stored, SteadyLast, ExactAfter, Cutoff, Accepted;
      var before, r := requests[..|requests| - 1], requests[|requests| - 1];
      SteadyBound(rule, before, key);
      RunExact(rule, before, key);
      RunExact(rule, requests, key);
      DroppedAreBehind(rule, before, key);
      if r.key == key && Lets(rule, Stored(rule, before, key), r.now) {
        SteadyAccept(rule, requests, key);
      }
    }
  }

  lemma SteadyAccept(rule: Rule, requests: seq<Request>, key: string)
    requires requests != [] && requests[|requests| - 1].key == key && rule.inclusive
    requires ExactAfter(rule, requests[..|requests| - 1], key) && SteadyLast(rule, requests, key)
    requires Lets(rule, Stored(rule, requests[..|requests| - 1], key), requests[|requests| - 1].now)
    requires Bounded(rule, Passed(rule, requests[..|requests| - 1], key))
    ensures Bounded(rule, Passed(rule, requests[..|requests| - 1], key) + [requests[|requests| - 1].now])
  {
    hide Popped, Recent, Bounded, Stored, Cutoff, Accepted, KeepsOrder, StaysGone, IsTail, NoStaleBehind;
    var before, r := requests[..|requests| - 1], requests[|requests| - 1];
    var accepted := Accepted(rule, before, key);
    StoredIsTail(rule, before, key);
    WindowExact(rule, Stored(rule, before, key), accepted, LastTime(before, key), r.now);
    DroppedAreBehind(rule, before, key);
    SteadyOrder(accepted, Cutoff(rule, LastTime(before, key)), Cutoff(rule, r.now));
    BoundedSnoc(rule, accepted, r.now);
  }

  /** A steady move leaves nothing stale behind anything recent. */
  lemma SteadyOrder(accepted: seq<int>, was: int, cutoff: int)
    requires KeepsOrder(accepted, Id, was, cutoff) && StaysGone(accepted, Id, was, cutoff)
    ensures NoStaleBehind(accepted, Id, cutoff)
  {
  }

  /** Nor does any window of time hold more than the limit. */
  lemma SteadyWindows(rule: Rule, requests: seq<Request>, key: string)
    requires SteadyRun(rule, requests, key) && rule.inclusive
    ensures Passed(rule, requests, key) == Accepted(rule, requests, key)
    ensures AnyWindow(rule, Passed(rule, requests, key))
  {
    hide AnyWindow, SteadyRun, Passed, Accepted, Stored;
    RunExact(rule, requests, key);
    assert ExactAfter(rule, requests, key);
    WindowBound(rule, requests, key);
  }

  /** The last request, if it is let through, is clear of the acceptance `limit` places back. */
  predicate ClearLast(rule: Rule, requests: seq<Request>, key: string)
    requires requests != []
  {
    var before, r := requests[..|requests| - 1], requests[|requests| - 1];
    r.key == key && Lets(rule, Stored(rule, before, key), r.now) ==> ClearOf(rule, Passed(rule, before, key), r.now)
  }

  predicate ClearRun(rule: Rule, requests: seq<Request>, key: string) {
    requests == [] || (ClearRun(rule, requests[..|requests| - 1], key) && ClearLast(rule, requests, key))
  }

  /**
   * Over any run under any clock the bound holds if and only if each request let through is clear of the
   * acceptances before it.
   */
  lemma {:induction false} BoundedRun(rule: Rule, requests: seq<Request>, key: string)
    ensures Bounded(rule, Passed(rule, requests, key)) <==> ClearRun(rule, requests, key)
  {
    if requests == [] {
      NothingBounded(rule);
    } else {
      hide Bounded, ClearOf, Stored, Popped;
      var before, r := requests[..|requests| - 1], requests[|requests| - 1];
      BoundedRun(rule, before, key);
      PrefixBounds(rule, Passed(rule, before, key), r.now);
      if Bounded(rule, Passed(rule, before, key)) && Lets(rule, Stored(rule, before, key), r.now) {
        AcceptKeepsBound(rule, Passed(rule, before, key), r.now);
      }
    }
  }

  /** Two in a window of 10: requests at 0, 1 and 100, and one at 5 after the clock stepped back. */
  function StepBack(key: string): seq<Request> {
    [Request(key, 0), Request(key, 1), Request(key, 100), Request(key, 5)]
  }

  /** All four pass, the last only 4 after the second: a bound the full history would have kept. */
  lemma ClockStepBack(key: string)
    ensures Passed(Rule(2, 10, true), StepBack(key), key) == [0, 1, 100, 5]
    ensures !Bounded(Rule(2, 10, true), [0, 1, 100, 5])
    ensures !SteadyRun(Rule(2, 10, true), StepBack(key), key)
  {
    hide Stored, Passed, SteadyRun, Popped;
    var rule, first := Rule(2, 10, true), [Request(key, 0), Request(key, 1)];
    FirstTwo(rule, key);
    PopBoth();
    LetThrough(rule, first, Request(key, 100), [0, 1], [0, 1], []);
    PopNothing([100]);
    LetThrough(rule, first + [Request(key, 100)], Request(key, 5), [100], [0, 1, 100], [100]);
    assert StepBack(key) == first + [Request(key, 100)] + [Request(key, 5)];
    var times := [0, 1, 100, 5];
    assert times[1 + 2] < times[1] + 10 + 1;
    if SteadyRun(rule, StepBack(key), key) {
      SteadyBound(rule, StepBack(key), key);
    }
  }

  lemma FirstOne(rule: Rule, key: string)
    requires rule == Rule(2, 10, true)
    ensures Stored(rule, [Request(key, 0)], key) == [0] && Passed(rule, [Request(key, 0)], key) == [0]
  {
    hide Stored, Passed, Popped;
    Fresh(rule, key);
    PopNothing([]);
    LetThrough(rule, [], Request(key, 0), [], [], []);
    assert [] + [Request(key, 0)] == [Request(key, 0)];
    assert [] + [0] == [0];
  }

  lemma FirstTwo(rule: Rule, key: string)
    requires rule == Rule(2, 10, true)
    ensures var first := [Request(key, 0), Request(key, 1)];
            Stored(rule, first, key) == [0, 1] && Passed(rule, first, key) == [0, 1]
  {
    hide Stored, Passed, Popped;
    FirstOne(rule, key);
    PopNothing([0]);
    LetThrough(rule, [Request(key, 0)], Request(key, 1), [0], [0], [0]);
    assert [Request(key, 0)] + [Request(key, 1)] == [Request(key, 0), Request(key, 1)];
  }

  lemma PopNothing(window: seq<int>)
    requires window == [] || window[0] >= 0
    ensures Popped(window, Id, 0) == window
  {
  }

  lemma PopBoth()
    ensures Popped([0, 1], Id, 90) == []
  {
    assert [0, 1][1..] == [1] && [1][1..] == [];
  }

  /** One more request that is let through. */
  lemma LetThrough(rule: Rule, before: seq<Request>, r: Request, window: seq<int>, passed: seq<int>, kept: seq<int>)
    requires Stored(rule, before, r.key) == window && Passed(rule, before, r.key) == passed
    requires Popped(window, Id, Cutoff(rule, r.now)) == kept && |kept| < rule.limit
    ensures Stored(rule, before + [r], r.key) == kept + [r.now]
    ensures Passed(rule, before + [r], r.key) == passed + [r.now]
  {
    hide Stored, Passed, Popped, Cutoff;
    StoredSnoc(rule, before, r, r.key);
    PassedSnoc(rule, before, r, r.key);
  }

  lemma StoredSnoc(rule: Rule, before: seq<Request>, r: Request, key: string)
    ensures Stored(rule, before + [r], key)
            == if key == r.key then NextPopped(rule, Stored(rule, before, key), r.now) else Stored(rule, before, key)
  {
    hide NextPopped;
    var longer := before + [r];
    assert longer[|longer| - 1] == r && longer[..|longer| - 1] == before;
  }

  lemma PassedSnoc(rule: Rule, before: seq<Request>, r: Request, key: string)
    ensures Passed(rule, before + [r], key)
            == if r.key == key && Lets(rule, Stored(rule, before, key), r.now) then Passed(rule, before, key) + [r.now]
               else Passed(rule, before, key)
  {
    hide Lets, Stored;
    var longer := before + [r];
    assert longer[|longer| - 1] == r && longer[..|longer| - 1] == before;
  }

  // ── The limiter ───────────────────────────────────────────────────────────

  /** Every key's window is the one its requests leave. */
  ghost predicate Holds(rule: Rule, windows: map<string, seq<int>>, requests: seq<Request>) {
    forall k :: WindowOf(windows, k) == Stored(rule, requests, k)
  }

  lemma HoldsNext(rule: Rule, windows: map<string, seq<int>>, requests: seq<Request>, r: Request)
    requires Holds(rule, windows, requests)
    ensures WindowOf(windows, r.key) == Stored(rule, requests, r.key)
    ensures Holds(rule, windows[r.key := NextPopped(rule, WindowOf(windows, r.key), r.now)], requests + [r])
  {
    hide Stored, NextPopped;
    forall k: string
      ensures WindowOf(windows[r.key := NextPopped(rule, WindowOf(windows, r.key), r.now)], k)
              == Stored(rule, requests + [r], k)
    {
      StoredSnoc(rule, requests, r, k);
    }
  }

  /** Per-capability deques, pruned from the front; time is the system's clock, which may step back. */
  lemma {:induction false} StoredAreTimes(rule: Rule, requests: seq<Request>, key: string)
    ensures forall i :: 0 <= i < |Stored(rule, requests, key)| ==> Stored(rule, requests, key)[i] >= 0
  {
    if requests != [] {
      hide Popped;
      StoredAreTimes(rule, requests[..|requests| - 1], key);
    }
  }

  lemma WindowIsStored(rule: Rule, windows: map<string, seq<int>>, requests: seq<Request>, key: string)
    requires Holds(rule, windows, requests)
    ensures WindowOf(windows, key) == Stored(rule, requests, key)
  {
  }

  /** A call's answer and what it leaves of the window, in literal times. */
  ghost predicate Answers(rule: Rule, before: seq<int>, after: seq<int>, now: nat, allowed: bool) {
    exists left :: Leaves(rule, before, left, now)
                   && (allowed <==> |left| < rule.limit) && after == left + if allowed then [now] else []
  }

  lemma PopAnswers(rule: Rule, windows: map<string, seq<int>>, requests: seq<Request>, key: string, now: nat)
    requires Holds(rule, windows, requests)
    ensures var window := WindowOf(windows, key);
            Answers(rule, window, NextPopped(rule, window, now), now,
                    |Popped(window, Id, Cutoff(rule, now))| < rule.limit)
  {
    hide Popped, Leaves, Holds;
    var window := WindowOf(windows, key);
    var left := Popped(window, Id, Cutoff(rule, now));
    WindowIsStored(rule, windows, requests, key);
    StoredAreTimes(rule, requests, key);
    PoppedLeaves(rule, window, now);
    assert left + [] == left;
  }

  class PushRateLimiter {
    var windows: map<string, seq<int>>
    const limit: nat
    const windowMs: nat
    /** Every request so far. */
    ghost var requests: seq<Request>

    ghost function AsRule(): Rule {
      Rule(limit, windowMs, true)
    }

    ghost predicate Valid()
      reads this
    {
      Holds(AsRule(), windows, requests)
    }

    constructor (limit: nat, windowMs: nat)
      ensures Valid() && requests == [] && this.limit == limit && this.windowMs == windowMs
    {
      this.limit, this.windowMs := limit, windowMs;
      windows, requests := map[], [];
    }

    method CheckAndRecord(capability: string, now: nat) returns (allowed: bool)
      requires Valid()
      modifies this
      ensures Valid() && requests == old(requests) + [Request(capability, now)]
      ensures allowed <==> Lets(AsRule(), Stored(AsRule(), old(requests), capability), now)
      ensures SteadyRun(AsRule(), requests, capability) ==>
                (allowed <==> Allows(AsRule(), Accepted(AsRule(), old(requests), capability), now))
      ensures SteadyRun(AsRule(), requests, capability) ==>
                (allowed <==>
                 |Filter(Accepted(AsRule(), old(requests), capability), InWindow(AsRule(), now))| < limit)
      ensures Answers(AsRule(), WindowOf(old(windows), capability), WindowOf(windows, capability), now, allowed)
      ensures forall k :: k != capability ==> WindowOf(windows, k) == WindowOf(old(windows), k)
    {
      hide Accepted, Allows, Stored, SteadyRun, Popped, Holds, Answers, InWindow, Filter;
      AcceptedAreTimes(AsRule(), requests, capability);
      AllowsCounts(AsRule(), Accepted(AsRule(), requests, capability), now);
      PopAnswers(AsRule(), windows, requests, capability, now);
      HoldsNext(AsRule(), windows, requests, Request(capability, now));
      SteadyDecision(AsRule(), requests, Request(capability, now));
      var window := PopStale(WindowOf(windows, capability), Id, SaturatingSub(now, windowMs));
      requests := requests + [Request(capability, now)];
      if |window| >= limit {
        windows := windows[capability := window];
        return false;
      }
      windows := windows[capability := window + [now]];
      return true;
    }
  }

  /** In a steady run the stored window decides as the full history does. */
  lemma SteadyDecision(rule: Rule, requests: seq<Request>, r: Request)
    requires rule.inclusive
    ensures SteadyRun(rule, requests + [r], r.key) ==>
              (Lets(rule, Stored(rule, requests, r.key), r.now) <==>
               Allows(rule, Accepted(rule, requests, r.key), r.now))
  {
    hide ExactAfter, SteadyLast, Stored, Accepted, Lets, Allows, Passed;
    var longer := requests + [r];
    assert longer[|longer| - 1] == r && longer[..|longer| - 1] == requests;
    if SteadyRun(rule, longer, r.key) {
      RunExact(rule, requests, r.key);
      assert ExactAfter(rule, requests, r.key);
      ExactDecision(rule, longer, r.key);
    }
  }

  lemma ExactDecision(rule: Rule, requests: seq<Request>, key: string)
    requires requests != [] && requests[|requests| - 1].key == key
    requires ExactAfter(rule, requests[..|requests| - 1], key) && SteadyLast(rule, requests, key)
    ensures Lets(rule, Stored(rule, requests[..|requests| - 1], key), requests[|requests| - 1].now)
            <==> Allows(rule, Accepted(rule, requests[..|requests| - 1], key), requests[|requests| - 1].now)
  {
    hide Stored, Accepted, Passed, Popped, Recent, Cutoff, KeepsOrder, StaysGone, IsTail;
    var before, r := requests[..|requests| - 1], requests[|requests| - 1];
    StoredIsTail(rule, before, key);
    WindowExact(rule, Stored(rule, before, key), Accepted(rule, before, key), LastTime(before, key), r.now);
  }

  // ── Whole runs ────────────────────────────────────────────────────────────

  /** The decisions of the popping limiter. */
  function PushDecisions(rule: Rule, requests: seq<Request>): seq<bool> {
    if requests == [] then []
    else
      var before, r := requests[..|requests| - 1], requests[|requests| - 1];
      PushDecisions(rule, before) + [Lets(rule, Stored(rule, before, r.key), r.now)]
  }

  lemma {:induction false} SteadyDecisions(rule: Rule, requests: seq<Request>)
    requires rule.inclusive && forall key :: SteadyRun(rule, requests, key)
    ensures PushDecisions(rule, requests) == Decisions(rule, requests)
  {
    if requests != [] {
      hide Stored, Accepted, Lets, Allows, SteadyLast;
      var before, r := requests[..|requests| - 1], requests[|requests| - 1];
      LastSplit(requests);
      assert forall key :: SteadyRun(rule, before, key) by {
        forall key: string
          ensures SteadyRun(rule, before, key)
        {
          assert SteadyRun(rule, requests, key);
        }
      }
      SteadyDecisions(rule, before);
      SteadyDecision(rule, before, r);
      assert SteadyRun(rule, requests, r.key);
    }
  }

  predicate PushedSoFar(rule: Rule, requests: seq<Request>, i: nat, decisions: seq<bool>)
    requires i <= |requests|
  {
    decisions == PushDecisions(rule, requests[..i])
  }

  lemma PushedNext(rule: Rule, requests: seq<Request>, i: nat, decisions: seq<bool>, allowed: bool)
    requires i < |requests| && PushedSoFar(rule, requests, i, decisions)
    requires allowed <==> Lets(rule, Stored(rule, requests[..i], requests[i].key), requests[i].now)
    ensures PushedSoFar(rule, requests, i + 1, decisions + [allowed])
    ensures requests[..i] + [requests[i]] == requests[..i + 1]
  {
    hide Lets, Stored;
    assert requests[..i + 1][..i] == requests[..i];
  }

  /**
   * The push limiter over any run under any clock. When every key's requests are steady,
   * and so whenever the clock does not go back, it decides by the full history.
   */
  method RunPushLimiter(limit: nat, window: nat, requests: seq<Request>) returns (decisions: seq<bool>)
    ensures decisions == PushDecisions(Rule(limit, window, true), requests)
    ensures (forall key :: SteadyRun(Rule(limit, window, true), requests, key))
            ==> decisions == Decisions(Rule(limit, window, true), requests)
                && ByWindow(Rule(limit, window, true), requests, decisions)
    ensures Monotone(requests) ==> ByWindow(Rule(limit, window, true), requests, decisions)
  {
    DecisionsByWindow(Rule(limit, window, true), requests);
    hide ByWindow, Accepted, Allows, Lets, Stored, SteadyRun, Decisions, PushRateLimiter.Valid;
    var limiter := new PushRateLimiter(limit, window);
    decisions := [];
    ghost var rule := Rule(limit, window, true);
    assert PushedSoFar(rule, requests, 0, decisions);
    for i := 0 to |requests|
      invariant limiter.Valid() && limiter.requests == requests[..i]
      invariant limiter.limit == limit && limiter.windowMs == window
      invariant PushedSoFar(rule, requests, i, decisions)
    {
      hide PushedSoFar;
      var allowed := limiter.CheckAndRecord(requests[i].key, requests[i].now);
      PushedNext(rule, requests, i, decisions, allowed);
      decisions := decisions + [allowed];
    }
    assert requests[..|requests|] == requests;
    if Monotone(requests) {
      forall key: string
        ensures SteadyRun(rule, requests, key)
      {
        MonotoneIsSteady(rule, requests, key);
      }
    }
    if forall key :: SteadyRun(rule, requests, key) {
      SteadyDecisions(rule, requests);
    }
  }
}
