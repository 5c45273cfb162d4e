/** The filtering limiter (`RateLimiter` in node/daemon/src/api/auth_layer.rs). */
module ApiLimits {
  import opened Prelude
  import opened Windows
  import opened RateLimits
  import opened Selecting

  // ── Filtering, in any order of instants ───────────────────────────────────

  /** What `check` leaves of a bucket. */
  function NextFiltered(rule: Rule, bucket: seq<int>, now: nat): seq<int> {
    var kept := Recent(bucket, Id, Cutoff(rule, now));
    if |kept| < rule.limit then kept + [now] else kept
  }

  /** The bucket of a key after a run. */
  function Bucket(rule: Rule, requests: seq<Request>, key: string): seq<int> {
    if requests == [] then []
    else
      var before, r := Bucket(rule, requests[..|requests| - 1], key), requests[|requests| - 1];
      if r.key == key then NextFiltered(rule, before, r.now) else before
  }

  predicate Admits(rule: Rule, bucket: seq<int>, now: nat) {
    |Recent(bucket, Id, Cutoff(rule, now))| < rule.limit
  }

  /** The instants at which the limiter lets a key through. */
  function Admitted(rule: Rule, requests: seq<Request>, key: string): seq<int> {
    if requests == [] then []
    else
      var before, r := requests[..|requests| - 1], requests[|requests| - 1];
      if r.key == key && Admits(rule, Bucket(rule, before, key), r.now) then Admitted(rule, before, key) + [r.now]
      else Admitted(rule, before, key)
  }

  lemma BucketSnoc(rule: Rule, requests: seq<Request>, r: Request, key: string)
    ensures Bucket(rule, requests + [r], key)
            == if key == r.key then NextFiltered(rule, Bucket(rule, requests, key), r.now)
               else Bucket(rule, requests, key)
  {
    hide NextFiltered;
    var longer := requests + [r];
    assert longer[|longer| - 1] == r && longer[..|longer| - 1] == requests;
  }

  lemma AdmittedSnoc(rule: Rule, requests: seq<Request>, r: Request, key: string)
    ensures Admitted(rule, requests + [r], key)
            == if r.key == key && Admits(rule, Bucket(rule, requests, key), r.now)
               then Admitted(rule, requests, key) + [r.now]
               else Admitted(rule, requests, key)
  {
    hide Admits, Bucket;
    var longer := requests + [r];
    assert longer[|longer| - 1] == r && longer[..|longer| - 1] == requests;
  }

  // ── When filtering counts as the full history does ────────────────────────

  /** The acceptances, by the full history, that the purge of the key's last request looked at. */
  function Purged(rule: Rule, requests: seq<Request>, key: string): seq<int> {
    if requests == [] then []
    else if requests[|requests| - 1].key == key then Accepted(rule, requests[..|requests| - 1], key)
    else Purged(rule, requests[..|requests| - 1], key)
  }

  /** The last request, if it is the key's, is decided on exactly the acceptances that count. */
  ghost predicate CountsLast(rule: Rule, requests: seq<Request>, key: string)
    requires requests != []
  {
    var before, r := requests[..|requests| - 1], requests[|requests| - 1];
    r.key == key ==>
      Recent(Bucket(rule, before, key), Id, Cutoff(rule, r.now))
          == Recent(Accepted(rule, before, key), Id, Cutoff(rule, r.now))
  }

  ghost predicate CountsRun(rule: Rule, requests: seq<Request>, key: string) {
    requests == [] || (CountsRun(rule, requests[..|requests| - 1], key) && CountsLast(rule, requests, key))
  }

  /** What the key's last purge dropped is out of the window of its next request too. */
  ghost predicate GoneLast(rule: Rule, requests: seq<Request>, key: string)
    requires requests != []
  {
    var before, r := requests[..|requests| - 1], requests[|requests| - 1];
    r.key == key ==>
      StaysGone(Purged(rule, before, key), Id, Cutoff(rule, LastTime(before, key)), Cutoff(rule, r.now))
  }

  ghost predicate GoneRun(rule: Rule, requests: seq<Request>, key: string) {
    requests == [] || (GoneRun(rule, requests[..|requests| - 1], key) && GoneLast(rule, requests, key))
  }

  /** The bucket is what the last purge kept and what was let through since; all is as the full history has it. */
  ghost predicate InForm(rule: Rule, requests: seq<Request>, key: string) {
    var purged, accepted := Purged(rule, requests, key), Accepted(rule, requests, key);
    && Admitted(rule, requests, key) == accepted
    && purged <= accepted
    && Bucket(rule, requests, key) == Recent(purged, Id, Cutoff(rule, LastTime(requests, key))) + accepted[|purged|..]
  }

  lemma NothingInForm(rule: Rule, key: string)
    ensures InForm(rule, [], key)
  {
  }

  lemma FormAfter(rule: Rule, requests: seq<Request>, key: string)
    requires requests != [] && InForm(rule, requests[..|requests| - 1], key) && CountsLast(rule, requests, key)
    ensures InForm(rule, requests, key)
  {
    hide Recent, Cutoff;
  }

  lemma {:induction false} CountsInForm(rule: Rule, requests: seq<Request>, key: string)
    requires CountsRun(rule, requests, key)
    ensures InForm(rule, requests, key)
  {
    if requests == [] {
      NothingInForm(rule, key);
    } else {
      hide CountsLast, InForm;
      CountsInForm(rule, requests[..|requests| - 1], key);
      FormAfter(rule, requests, key);
    }
  }

  /** What a purge kept and what came since, cut at another point. */
  lemma PartsCount(purged: seq<int>, since: seq<int>, was: int, cutoff: int)
    ensures Recent(Recent(purged, Id, was) + since, Id, cutoff) == Recent(purged + since, Id, cutoff)
            <==> StaysGone(purged, Id, was, cutoff)
  {
    hide Recent, StaysGone;
    RecentParts(Recent(purged, Id, was), since, Id, cutoff);
    RecentParts(purged, since, Id, cutoff);
    RecentThenRecent(purged, Id, was, cutoff);
    SameSuffix(Recent(Recent(purged, Id, was), Id, cutoff), Recent(purged, Id, cutoff), Recent(since, Id, cutoff));
  }

  lemma SameSuffix<T>(a: seq<T>, b: seq<T>, suffix: seq<T>)
    ensures a + suffix == b + suffix <==> a == b
  {
    if a + suffix == b + suffix {
      assert |a| == |b|;
      assert (a + suffix)[..|a|] == a && (b + suffix)[..|b|] == b;
    }
  }

  lemma LastCounts(rule: Rule, requests: seq<Request>, key: string)
    requires requests != [] && InForm(rule, requests[..|requests| - 1], key)
    ensures CountsLast(rule, requests, key) <==> GoneLast(rule, requests, key)
  {
    hide Recent, Cutoff, StaysGone, Bucket, Accepted, Purged, LastTime;
    var before, r := requests[..|requests| - 1], requests[|requests| - 1];
    var purged, accepted := Purged(rule, before, key), Accepted(rule, before, key);
    PartsCount(purged, accepted[|purged|..], Cutoff(rule, LastTime(before, key)), Cutoff(rule, r.now));
    assert accepted == purged + accepted[|purged|..];
  }

  /**
   * Over any run, in any order of instants, every request of a key is decided on exactly the
   * acceptances the full history counts if and only if nothing a purge drops comes back into
   * the window of the key's next request.
   */
  lemma {:induction false} RunExact(rule: Rule, requests: seq<Request>, key: string)
    ensures CountsRun(rule, requests, key) <==> GoneRun(rule, requests, key)
  {
    if requests != [] {
      hide CountsLast, GoneLast, InForm;
      RunExact(rule, requests[..|requests| - 1], key);
      if CountsRun(rule, requests[..|requests| - 1], key) {
        CountsInForm(rule, requests[..|requests| - 1], key);
        LastCounts(rule, requests, key);
      }
    }
  }

  lemma {:induction false} PurgedAccepted(rule: Rule, requests: seq<Request>, key: string)
    ensures Purged(rule, requests, key) <= Accepted(rule, requests, key)
  {
    if requests != [] {
      hide Allows;
      PurgedAccepted(rule, requests[..|requests| - 1], key);
    }
  }

  /** Requests in order of time drop nothing that comes back. */
  lemma {:induction false} MonotoneIsGone(rule: Rule, requests: seq<Request>, key: string)
    requires Monotone(requests)
    ensures GoneRun(rule, requests, key)
  {
    if requests != [] {
      hide Purged, Cutoff;
      var before, r := requests[..|requests| - 1], requests[|requests| - 1];
      MonotoneIsGone(rule, before, key);
      LastTimeBound(before, key, r.now);
      CutoffMonotone(rule, LastTime(before, key), r.now);
    }
  }

  // ── The bound ─────────────────────────────────────────────────────────────

  /** When nothing dropped comes back, no window of time holds more than the limit, whatever the order of instants. */
  lemma GoneBound(rule: Rule, requests: seq<Request>, key: string)
    requires GoneRun(rule, requests, key)
    ensures Admitted(rule, requests, key) == Accepted(rule, requests, key)
    ensures AnyWindow(rule, Admitted(rule, requests, key))
  {
    hide GoneRun, CountsRun, AnyWindow, Admitted, Accepted;
    RunExact(rule, requests, key);
    CountsInForm(rule, requests, key);
    WindowBound(rule, requests, key);
  }

  /** The last request, if it is let through, finds room in every window that holds it. */
  ghost predicate RoomLast(rule: Rule, requests: seq<Request>, key: string)
    requires requests != []
  {
    var before, r := requests[..|requests| - 1], requests[|requests| - 1];
    r.key == key && Admits(rule, Bucket(rule, before, key), r.now) ==> RoomAt(rule, Admitted(rule, before, key), r.now)
  }

  ghost predicate RoomRun(rule: Rule, requests: seq<Request>, key: string) {
    requests == [] || (RoomRun(rule, requests[..|requests| - 1], key) && RoomLast(rule, requests, key))
  }

  /** Over any run every window is within the limit if and only if each request that is let through finds room. */
  lemma {:induction false} BoundedRun(rule: Rule, requests: seq<Request>, key: string)
    ensures AnyWindow(rule, Admitted(rule, requests, key)) <==> RoomRun(rule, requests, key)
  {
    if requests == [] {
      NoTimes(rule);
    } else {
      hide AnyWindow, RoomAt, Admits, Bucket;
      var before, r := requests[..|requests| - 1], requests[|requests| - 1];
      BoundedRun(rule, before, key);
      PrefixBounds(rule, Admitted(rule, before, key), r.now);
      if AnyWindow(rule, Admitted(rule, before, key)) {
        OneMore(rule, Admitted(rule, before, key), r.now);
      }
    }
  }

  /** The latest cutoff any request of the key has purged with. */
  function HighCutoff(rule: Rule, requests: seq<Request>, key: string): int {
    if requests == [] then 0 - rule.window
    else
      var before, r := HighCutoff(rule, requests[..|requests| - 1], key), requests[|requests| - 1];
      if r.key == key && Cutoff(rule, r.now) > before then Cutoff(rule, r.now) else before
  }

  lemma {:induction false} AboveHighCutoff(rule: Rule, requests: seq<Request>, key: string)
    ensures Recent(Bucket(rule, requests, key), Id, HighCutoff(rule, requests, key))
            == Recent(Admitted(rule, requests, key), Id, HighCutoff(rule, requests, key))
  {
    if requests != [] {
      hide Recent, Cutoff;
      var before, r := requests[..|requests| - 1], requests[|requests| - 1];
      AboveHighCutoff(rule, before, key);
      if r.key == key {
        var bucket, admitted := Bucket(rule, before, key), Admitted(rule, before, key);
        var was, high, c := HighCutoff(rule, before, key), HighCutoff(rule, requests, key), Cutoff(rule, r.now);
        RecentTwice(bucket, Id, c, high);
        RecentTwice(bucket, Id, was, high);
        RecentTwice(admitted, Id, was, high);
        RecentSnoc(Recent(bucket, Id, c), r.now, Id, high);
        RecentSnoc(admitted, r.now, Id, high);
      }
    }
  }

  lemma {:induction false} RecentShrinks(s: seq<int>, c: int, d: int)
    requires c <= d
    ensures |Recent(s, Id, d)| <= |Recent(s, Id, c)|
  {
    if s != [] {
      RecentShrinks(s[1..], c, d);
    }
  }

  /**
   * In any order of instants, a request is let through only with fewer than `limit` acceptances since
   * the latest cutoff so far.
   */
  lemma HighWaterBound(rule: Rule, requests: seq<Request>, key: string)
    requires requests != [] && requests[|requests| - 1].key == key
    requires Admits(rule, Bucket(rule, requests[..|requests| - 1], key), requests[|requests| - 1].now)
    ensures |Recent(Admitted(rule, requests[..|requests| - 1], key), Id, HighCutoff(rule, requests, key))| < rule.limit
  {
    hide Recent, Cutoff, Bucket, Admitted;
    var before, r := requests[..|requests| - 1], requests[|requests| - 1];
    var bucket, admitted := Bucket(rule, before, key), Admitted(rule, before, key);
    var was, high := HighCutoff(rule, before, key), HighCutoff(rule, requests, key);
    AboveHighCutoff(rule, before, key);
    RecentTwice(bucket, Id, was, high);
    RecentTwice(admitted, Id, was, high);
    RecentShrinks(bucket, Cutoff(rule, r.now), high);
  }

  // ── A call overtaken by a later one ───────────────────────────────────────

  /** Calls with instants 1, 2, 103 and 100, the last having waited while the third went first. */
  function Overtaken(key: string): seq<Request> {
    [Request(key, 1), Request(key, 2), Request(key, 103), Request(key, 100)]
  }

  /** With two allowed in a window of 100 all four pass, though 1, 2 and 100 lie in one window. */
  lemma OvertakenPasses(key: string)
    ensures Admitted(Rule(2, 100, false), Overtaken(key), key) == [1, 2, 103, 100]
    ensures !AnyWindow(Rule(2, 100, false), [1, 2, 103, 100])
    ensures !GoneRun(Rule(2, 100, false), Overtaken(key), key)
  {
    hide Admitted, Bucket, AnyWindow, GoneRun;
    var rule := Rule(2, 100, false);
    FirstTwo(rule, key);
    var first := [Request(key, 1), Request(key, 2)];
    PurgeAll();
    LetThrough(rule, first, Request(key, 103), [1, 2], [1, 2], []);
    KeepOne();
    LetThrough(rule, first + [Request(key, 103)], Request(key, 100), [103], [1, 2, 103], [103]);
    assert Overtaken(key) == first + [Request(key, 103)] + [Request(key, 100)];
    Crowded();
    if GoneRun(rule, Overtaken(key), key) {
      GoneBound(rule, Overtaken(key), key);
    }
  }

  lemma FirstTwo(rule: Rule, key: string)
    requires rule == Rule(2, 100, false)
    ensures var first := [Request(key, 1), Request(key, 2)];
            Bucket(rule, first, key) == [1, 2] && Admitted(rule, first, key) == [1, 2]
  {
    hide Bucket, Admitted;
    FirstOne(rule, key);
    KeepFirst();
    LetThrough(rule, [Request(key, 1)], Request(key, 2), [1], [1], [1]);
    assert [Request(key, 1)] + [Request(key, 2)] == [Request(key, 1), Request(key, 2)];
  }

  lemma FirstOne(rule: Rule, key: string)
    requires rule == Rule(2, 100, false)
    ensures Bucket(rule, [Request(key, 1)], key) == [1] && Admitted(rule, [Request(key, 1)], key) == [1]
  {
    var one := [Request(key, 1)];
    assert one[..0] == [];
  }

  lemma KeepFirst()
    ensures Recent([1], Id, -97) == [1]
  {
  }

  lemma PurgeAll()
    ensures Recent([1, 2], Id, 4) == []
  {
    assert [1, 2][1..] == [2];
  }

  lemma KeepOne()
    ensures Recent([103], Id, 1) == [103]
  {
  }

  /** One more request that is let through. */
  lemma LetThrough(rule: Rule, before: seq<Request>, r: Request, bucket: seq<int>, admitted: seq<int>, kept: seq<int>)
    requires Bucket(rule, before, r.key) == bucket && Admitted(rule, before, r.key) == admitted
    requires Recent(bucket, Id, Cutoff(rule, r.now)) == kept && |kept| < rule.limit
    ensures Bucket(rule, before + [r], r.key) == kept + [r.now]
    ensures Admitted(rule, before + [r], r.key) == admitted + [r.now]
  {
    hide Bucket, Admitted, Recent, Cutoff;
    BucketSnoc(rule, before, r, r.key);
    AdmittedSnoc(rule, before, r, r.key);
  }

  lemma Crowded()
    ensures !AnyWindow(Rule(2, 100, false), [1, 2, 103, 100])
  {
    hide InSpan;
    InSpanSnoc([], 1, 1, 100);
    InSpanSnoc([1], 2, 1, 100);
    InSpanSnoc([1, 2], 103, 1, 100);
    InSpanSnoc([1, 2, 103], 100, 1, 100);
    assert [] + [1] == [1] && [1] + [2] == [1, 2] && [1, 2] + [103] == [1, 2, 103]
           && [1, 2, 103] + [100] == [1, 2, 103, 100];
    assert WindowEnd(Rule(2, 100, false), 1) == 100;
    assert |InSpan([1, 2, 103, 100], 1, 100)| >= 3;
  }

  // ── The limiter ───────────────────────────────────────────────────────────

  /** Every key's bucket is the one its requests leave. */
  ghost predicate Holds(rule: Rule, buckets: map<string, seq<int>>, requests: seq<Request>) {
    forall k :: WindowOf(buckets, k) == Bucket(rule, requests, k)
  }

  lemma HoldsNext(rule: Rule, buckets: map<string, seq<int>>, requests: seq<Request>, r: Request)
    requires Holds(rule, buckets, requests)
    ensures WindowOf(buckets, r.key) == Bucket(rule, requests, r.key)
    ensures Holds(rule, buckets[r.key := NextFiltered(rule, WindowOf(buckets, r.key), r.now)], requests + [r])
  {
    hide Bucket, NextFiltered;
    forall k: string
      ensures WindowOf(buckets[r.key := NextFiltered(rule, WindowOf(buckets, r.key), r.now)], k)
              == Bucket(rule, requests + [r], k)
    {
      BucketSnoc(rule, requests, r, k);
    }
  }

  /**
   * Per-key vectors, purged everywhere; time is in the unit of `Instant`. A call reads its
   * instant before it takes the lock, so calls may reach a bucket out of the order of their
   * instants.
   */
  lemma {:induction false} BucketHoldsTimes(rule: Rule, requests: seq<Request>, key: string)
    ensures forall i :: 0 <= i < |Bucket(rule, requests, key)| ==> Bucket(rule, requests, key)[i] >= 0
  {
    if requests != [] {
      hide Recent;
      BucketHoldsTimes(rule, requests[..|requests| - 1], key);
      var before, r := Bucket(rule, requests[..|requests| - 1], key), requests[|requests| - 1];
      forall t: int
        ensures t in Recent(before, Id, Cutoff(rule, r.now)) ==> t in before
      {
        RecentMember(before, Id, Cutoff(rule, r.now), t);
      }
      assert forall i :: 0 <= i < |Recent(before, Id, Cutoff(rule, r.now))| ==>
          Recent(before, Id, Cutoff(rule, r.now))[i] in Recent(before, Id, Cutoff(rule, r.now));
    }
  }

  lemma BucketIs(rule: Rule, buckets: map<string, seq<int>>, requests: seq<Request>, key: string)
    requires Holds(rule, buckets, requests)
    ensures WindowOf(buckets, key) == Bucket(rule, requests, key)
  {
  }

  /** A call's answer and what it leaves of the bucket, in literal times. */
  ghost predicate Answers(rule: Rule, before: seq<int>, after: seq<int>, now: nat, allowed: bool) {
    exists left :: Selects(before, left, InWindow(rule, now))
                   && (allowed <==> |left| < rule.limit) && after == left + if allowed then [now] else []
  }

  lemma FilterAnswers(rule: Rule, buckets: map<string, seq<int>>, requests: seq<Request>, key: string, now: nat)
    requires Holds(rule, buckets, requests)
    ensures var bucket := WindowOf(buckets, key);
            Answers(rule, bucket, NextFiltered(rule, bucket, now), now,
                    |Recent(bucket, Id, Cutoff(rule, now))| < rule.limit)
  {
    hide Recent, Holds;
    var bucket := WindowOf(buckets, key);
    var left := Recent(bucket, Id, Cutoff(rule, now));
    BucketIs(rule, buckets, requests, key);
    BucketHoldsTimes(rule, requests, key);
    RecentIsInWindow(rule, bucket, now);
    FilterSelects(bucket, InWindow(rule, now));
    assert Selects(bucket, left, InWindow(rule, now));
    assert left + [] == left;
  }

  class RateLimiter {
    var buckets: map<string, seq<int>>
    const limit: nat
    const window: nat
    /** Every request so far, in the order of the lock. */
    ghost var requests: seq<Request>

    ghost function AsRule(): Rule {
      Rule(limit, window, false)
    }

    ghost predicate Valid()
      reads this
    {
      Holds(AsRule(), buckets, requests)
    }

    constructor (limit: nat, window: nat)
      ensures Valid() && requests == [] && this.limit == limit && this.window == window
    {
      this.limit, this.window := limit, window;
      buckets, requests := map[], [];
    }

    method Check(key: string, now: nat) returns (allowed: bool)
      requires Valid()
      modifies this
      ensures Valid() && requests == old(requests) + [Request(key, now)]
      ensures allowed <==> Admits(AsRule(), Bucket(AsRule(), old(requests), key), now)
      ensures GoneRun(AsRule(), requests, key) ==>
                (allowed <==> Allows(AsRule(), Accepted(AsRule(), old(requests), key), now))
      ensures GoneRun(AsRule(), requests, key) ==>
                (allowed <==> |Filter(Accepted(AsRule(), old(requests), key), InWindow(AsRule(), now))| < limit)
      ensures Answers(AsRule(), WindowOf(old(buckets), key), WindowOf(buckets, key), now, allowed)
      ensures forall k :: k != key ==> WindowOf(buckets, k) == WindowOf(old(buckets), k)
    {
      hide Accepted, Allows, Bucket, GoneRun, Recent, Holds, Answers, InWindow, Filter;
      AcceptedAreTimes(AsRule(), requests, key);
      AllowsCounts(AsRule(), Accepted(AsRule(), requests, key), now);
      FilterAnswers(AsRule(), buckets, requests, key, now);
      HoldsNext(AsRule(), buckets, requests, Request(key, now));
      GoneDecision(AsRule(), requests, Request(key, now));
      var cutoff := now - window;
      var entries := Recent(WindowOf(buckets, key), Id, cutoff + 1);
      requests := requests + [Request(key, now)];
      if |entries| < limit {
        buckets := buckets[key := entries + [now]];
        return true;
      }
      buckets := buckets[key := entries];
      return false;
    }
  }

  /** When nothing dropped comes back the bucket decides as the full history does. */
  lemma GoneDecision(rule: Rule, requests: seq<Request>, r: Request)
    ensures GoneRun(rule, requests + [r], r.key) ==>
              (Admits(rule, Bucket(rule, requests, r.key), r.now) <==>
               Allows(rule, Accepted(rule, requests, r.key), r.now))
  {
    hide Recent, Bucket, Accepted, GoneLast, Cutoff;
    var longer := requests + [r];
    assert longer[|longer| - 1] == r && longer[..|longer| - 1] == requests;
    RunExact(rule, longer, r.key);
    assert GoneRun(rule, longer, r.key) ==> CountsLast(rule, longer, r.key);
  }

  // ── Whole runs ────────────────────────────────────────────────────────────

  /** The decisions of the filtering limiter. */
  function ApiDecisions(rule: Rule, requests: seq<Request>): seq<bool> {
    if requests == [] then []
    else
      var before, r := requests[..|requests| - 1], requests[|requests| - 1];
      ApiDecisions(rule, before) + [Admits(rule, Bucket(rule, before, r.key), r.now)]
  }

  lemma {:induction false} GoneDecisions(rule: Rule, requests: seq<Request>)
    requires forall key :: GoneRun(rule, requests, key)
    ensures ApiDecisions(rule, requests) == Decisions(rule, requests)
  {
    if requests != [] {
      hide Bucket, Accepted, Admits, Allows, GoneLast;
      var before, r := requests[..|requests| - 1], requests[|requests| - 1];
      LastSplit(requests);
      forall key: string
        ensures GoneRun(rule, before, key)
      {
        assert GoneRun(rule, requests, key);
      }
      GoneDecisions(rule, before);
      GoneDecision(rule, before, r);
      assert GoneRun(rule, requests, r.key);
    }
  }

  predicate CheckedSoFar(rule: Rule, requests: seq<Request>, i: nat, decisions: seq<bool>)
    requires i <= |requests|
  {
    decisions == ApiDecisions(rule, requests[..i])
  }

  lemma CheckedNext(rule: Rule, requests: seq<Request>, i: nat, decisions: seq<bool>, allowed: bool)
    requires i < |requests| && CheckedSoFar(rule, requests, i, decisions)
    requires allowed <==> Admits(rule, Bucket(rule, requests[..i], requests[i].key), requests[i].now)
    ensures CheckedSoFar(rule, requests, i + 1, decisions + [allowed])
    ensures requests[..i] + [requests[i]] == requests[..i + 1]
  {
    hide Admits, Bucket;
    assert requests[..i + 1][..i] == requests[..i];
  }

  /**
   * The API limiter over any run, in any order of instants. When nothing dropped comes back
   * for any key, and so whenever calls come in the order of their instants, it decides by the
   * full history.
   */
  method RunApiLimiter(limit: nat, window: nat, requests: seq<Request>) returns (decisions: seq<bool>)
    ensures decisions == ApiDecisions(Rule(limit, window, false), requests)
    ensures (forall key :: GoneRun(Rule(limit, window, false), requests, key)) ==>
              && decisions == Decisions(Rule(limit, window, false), requests)
              && ByWindow(Rule(limit, window, false), requests, decisions)
    ensures Monotone(requests) ==> ByWindow(Rule(limit, window, false), requests, decisions)
  {
    DecisionsByWindow(Rule(limit, window, false), requests);
    hide ByWindow, Accepted, Allows, Admits, Bucket, GoneRun, Decisions, RateLimiter.Valid;
    var limiter := new RateLimiter(limit, window);
    decisions := [];
    ghost var rule := Rule(limit, window, false);
    assert CheckedSoFar(rule, requests, 0, decisions);
    for i := 0 to |requests|
      invariant limiter.Valid() && limiter.requests == requests[..i]
      invariant limiter.limit == limit && limiter.window == window
      invariant CheckedSoFar(rule, requests, i, decisions)
    {
      hide CheckedSoFar;
      var allowed := limiter.Check(requests[i].key, requests[i].now);
      CheckedNext(rule, requests, i, decisions, allowed);
      decisions := decisions + [allowed];
    }
    assert requests[..|requests|] == requests;
    if Monotone(requests) {
      forall key: string
        ensures GoneRun(rule, requests, key)
      {
        MonotoneIsGone(rule, requests, key);
      }
    }
    if forall key :: GoneRun(rule, requests, key) {
      GoneDecisions(rule, requests);
    }
  }
}
