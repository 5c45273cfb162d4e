/** The notification ring buffer (`NotificationBuffer` in node/daemon/src/notifications.rs). */
module Notifications {
  import opened Prelude
  import opened Selecting
  import opened Decimal
  import opened Windows

  datatype Level = Info | Success | Warning | Error

  datatype PushRequest = PushRequest(capability: string, level: Level, title: string, message: string,
                                     action: Option<string>)

  datatype Notification = Notification(id: string, request: PushRequest, createdAt: nat)

  const MAX_ENTRIES := 50
  const EXPIRY_MS := 60000

  function CreatedAt(n: Notification): int {
    n.createdAt
  }

  function IdFor(k: nat): string {
    "notif-" + Print(k)
  }

  lemma IdInjective(j: nat, k: nat)
    ensures IdFor(j) == IdFor(k) ==> j == k
  {
    if IdFor(j) == IdFor(k) {
      assert IdFor(j)[6..] == Print(j) && IdFor(k)[6..] == Print(k);
      ValuePrint(j);
      ValuePrint(k);
    }
  }

  function Cutoff(now: nat): int {
    SaturatingSub(now, EXPIRY_MS)
  }

  function NewerThan(s: seq<Notification>, since: int): seq<Notification> {
    Recent(s, CreatedAt, since + 1)
  }

  // ── What the operations do to the entries ─────────────────────────────────

  function Pruned(entries: seq<Notification>, now: nat): seq<Notification> {
    Popped(entries, CreatedAt, Cutoff(now))
  }

  function Evicted(entries: seq<Notification>): (r: seq<Notification>)
    ensures |r| < MAX_ENTRIES || |r| < |entries|
  {
    if |entries| >= MAX_ENTRIES then entries[1..] else entries
  }

  function AfterPush(entries: seq<Notification>, n: Notification): seq<Notification> {
    Evicted(Pruned(entries, n.createdAt)) + [n]
  }

  // ── Specification over the full history ───────────────────────────────────

  /** The newest `MAX_ENTRIES` of everything ever pushed. */
  function Newest(history: seq<Notification>): seq<Notification> {
    if |history| <= MAX_ENTRIES then history else history[|history| - MAX_ENTRIES..]
  }

  /** Of those, the ones not expired at `now`. */
  function Live(history: seq<Notification>, now: nat): seq<Notification> {
    Recent(Newest(history), CreatedAt, Cutoff(now))
  }

  /** Ids count the pushes. */
  ghost predicate Numbered(history: seq<Notification>) {
    forall i :: 0 <= i < |history| ==> history[i].id == IdFor(i + 1)
  }

  /** The last pushes, at most as many as fit. */
  predicate IsTail(entries: seq<Notification>, history: seq<Notification>) {
    |entries| <= MAX_ENTRIES && |entries| <= |history| && entries == history[|history| - |entries|..]
  }

  lemma TailAfterPrune(entries: seq<Notification>, history: seq<Notification>, now: nat)
    requires IsTail(entries, history)
    ensures IsTail(Pruned(entries, now), history)
  {
    hide Popped;
  }

  lemma TailAfterPush(entries: seq<Notification>, history: seq<Notification>, n: Notification)
    requires IsTail(entries, history)
    ensures IsTail(AfterPush(entries, n), history + [n])
  {
    hide Pruned;
    TailAfterPrune(entries, history, n.createdAt);
    var kept := Evicted(Pruned(entries, n.createdAt));
    assert kept == history[|history| - |kept|..];
  }

  // ── When the buffer is what the history says ──────────────────────────────

  /** What a push leaves room for. */
  function Staying(history: seq<Notification>): seq<Notification> {
    if |history| < MAX_ENTRIES then history else Newest(history)[1..]
  }

  /**
   * The clock moves from `clock` to `now` without leaving an expired entry behind a kept one,
   * and without making an expired entry that is still wanted live again.
   */
  ghost predicate Steady(history: seq<Notification>, clock: nat, now: nat, wanted: seq<Notification>) {
    && KeepsOrder(Newest(history), CreatedAt, Cutoff(clock), Cutoff(now))
    && StaysGone(wanted, CreatedAt, Cutoff(clock), Cutoff(now))
  }

  /** The entries as the tail of the newest pushes. */
  lemma TailOfNewest(entries: seq<Notification>, history: seq<Notification>)
    requires IsTail(entries, history)
    ensures |entries| <= |Newest(history)| && entries == Newest(history)[|Newest(history)| - |entries|..]
  {
  }

  /** Pruning an exact buffer gives an exact buffer exactly when the clock moves steadily. */
  lemma PruneExact(entries: seq<Notification>, history: seq<Notification>, clock: nat, now: nat)
    requires IsTail(entries, history) && entries == Live(history, clock)
    ensures Pruned(entries, now) == Live(history, now) <==> Steady(history, clock, now, Newest(history))
  {
    hide Recent, Popped, IsTail, Newest, KeepsOrder, StaysGone;
    TailOfNewest(entries, history);
    PopExact(Newest(history), |Newest(history)| - |entries|, CreatedAt, Cutoff(clock), Cutoff(now));
  }

  lemma LivePush(history: seq<Notification>, n: Notification)
    ensures Live(history + [n], n.createdAt) == Recent(Staying(history), CreatedAt, Cutoff(n.createdAt)) + [n]
  {
    hide Recent;
    assert Newest(history + [n]) == Staying(history) + [n];
    RecentSnoc(Staying(history), n, CreatedAt, Cutoff(n.createdAt));
  }

  lemma SnocEqual<T>(a: seq<T>, b: seq<T>, x: T)
    ensures a + [x] == b + [x] <==> a == b
  {
    assert (a + [x])[..|a|] == a && (b + [x])[..|b|] == b;
  }

  /** A full buffer with nothing expired: all of it is the window `w`. */
  lemma EvictFull(w: seq<Notification>, was: int, cutoff: int)
    requires |w| == MAX_ENTRIES && forall i :: 0 <= i < |w| ==> CreatedAt(w[i]) >= was
    ensures Evicted(Popped(w, CreatedAt, cutoff)) == Recent(w[1..], CreatedAt, cutoff)
            <==> KeepsOrder(w, CreatedAt, was, cutoff)
    ensures StaysGone(w[1..], CreatedAt, was, cutoff)
  {
    hide Recent, Popped, KeepsOrder;
    if CreatedAt(w[0]) >= cutoff {
      FreshHead(w, was, cutoff);
      RecentIsAll(w[1..], CreatedAt, cutoff);
    } else {
      PopExpiredHead(w, cutoff);
      PoppedIsRecent(w[1..], CreatedAt, cutoff);
      OrderWithoutHead(w, was, cutoff);
    }
  }

  lemma FreshHead(w: seq<Notification>, was: int, cutoff: int)
    requires w != [] && CreatedAt(w[0]) >= cutoff && CreatedAt(w[0]) >= was
    ensures Popped(w, CreatedAt, cutoff) == w
    ensures KeepsOrder(w, CreatedAt, was, cutoff) <==> forall i :: 0 <= i < |w| - 1 ==> CreatedAt(w[1..][i]) >= cutoff
  {
    if KeepsOrder(w, CreatedAt, was, cutoff) {
      forall i | 0 <= i < |w| - 1
        ensures CreatedAt(w[1..][i]) >= cutoff
      {
        assert w[1..][i] == w[i + 1] && CreatedAt(w[0]) >= was;
      }
    } else {
      var i, j :| 0 <= i < j < |w| && CreatedAt(w[j]) < cutoff;
      assert w[1..][j - 1] == w[j];
    }
  }

  lemma PopExpiredHead(w: seq<Notification>, cutoff: int)
    requires |w| == MAX_ENTRIES && CreatedAt(w[0]) < cutoff
    ensures Evicted(Popped(w, CreatedAt, cutoff)) == Popped(w[1..], CreatedAt, cutoff)
  {
  }

  /** An expired head says nothing about what is behind a kept entry. */
  lemma OrderWithoutHead(w: seq<Notification>, was: int, cutoff: int)
    requires w != [] && (CreatedAt(w[0]) < cutoff || CreatedAt(w[0]) < was)
    ensures KeepsOrder(w, CreatedAt, was, cutoff) <==> KeepsOrder(w[1..], CreatedAt, was, cutoff)
    ensures (forall i :: 0 < i < |w| ==> CreatedAt(w[i]) >= was) ==>
              (KeepsOrder(w[1..], CreatedAt, was, cutoff) <==> NoStaleBehind(w[1..], CreatedAt, cutoff))
  {
    var rest := w[1..];
    assert forall i :: 0 <= i < |rest| ==> rest[i] == w[i + 1];
    if KeepsOrder(rest, CreatedAt, was, cutoff) {
      forall i, j | 0 <= i < j < |w| && CreatedAt(w[i]) >= was && CreatedAt(w[i]) >= cutoff
        ensures CreatedAt(w[j]) >= cutoff
      {
        assert w[i] == rest[i - 1] && w[j] == rest[j - 1];
      }
    }
  }

  /** Pushing into an exact buffer gives an exact buffer exactly when the clock moves steadily for what stays. */
  lemma PushExact(entries: seq<Notification>, history: seq<Notification>, clock: nat, n: Notification)
    requires IsTail(entries, history) && entries == Live(history, clock)
    ensures AfterPush(entries, n) == Live(history + [n], n.createdAt)
            <==> Steady(history, clock, n.createdAt, Staying(history))
  {
    hide Recent, Popped, KeepsOrder, StaysGone, Evicted;
    var w, was, cutoff := Newest(history), Cutoff(clock), Cutoff(n.createdAt);
    TailOfNewest(entries, history);
    LivePush(history, n);
    SnocEqual(Evicted(Pruned(entries, n.createdAt)), Recent(Staying(history), CreatedAt, cutoff), n);
    if |entries| < MAX_ENTRIES {
      NotEvicted(entries, n.createdAt);
      if |history| < MAX_ENTRIES {
        PruneExact(entries, history, clock, n.createdAt);
      } else {
        RoomMade(w, |w| - |entries|, was, cutoff);
      }
    } else {
      RecentTail(w, 0, CreatedAt, was);
      EvictFull(w, was, cutoff);
    }
  }

  lemma NotEvicted(entries: seq<Notification>, now: nat)
    requires |entries| < MAX_ENTRIES
    ensures Evicted(Pruned(entries, now)) == Pruned(entries, now)
  {
    hide Popped;
  }

  /** The oldest of a full window is already gone. */
  lemma RoomMade(w: seq<Notification>, f: nat, was: int, cutoff: int)
    requires |w| == MAX_ENTRIES && 0 < f <= |w| && w[f..] == Recent(w, CreatedAt, was)
    ensures Popped(w[f..], CreatedAt, cutoff) == Recent(w[1..], CreatedAt, cutoff)
            <==> KeepsOrder(w, CreatedAt, was, cutoff) && StaysGone(w[1..], CreatedAt, was, cutoff)
  {
    hide Recent, Popped, KeepsOrder, StaysGone;
    RecentTail(w, f, CreatedAt, was);
    TailRecent(w, 1, CreatedAt, was);
    assert w[1..][f - 1..] == w[f..];
    PopExact(w[1..], f - 1, CreatedAt, was, cutoff);
    OrderWithoutHead(w, was, cutoff);
  }

  /** A clock that does not go back moves steadily. */
  lemma ForwardIsSteady(history: seq<Notification>, clock: nat, now: nat, wanted: seq<Notification>)
    requires InOrder(history, CreatedAt) && clock <= now
    ensures Steady(history, clock, now, wanted)
  {
    var w := Newest(history);
    var shift := |history| - |w|;
    assert forall i :: 0 <= i < |w| ==> w[i] == history[shift + i];
  }

  // ── The buffer ────────────────────────────────────────────────────────────

  /** Every time is the system's clock, which may step back. */
  class NotificationBuffer {
    var entries: seq<Notification>
    var nextId: nat
    /** Everything ever pushed, and the time of the last operation. */
    ghost var history: seq<Notification>
    ghost var clock: nat

    ghost predicate Valid()
      reads this
    {
      IsTail(entries, history) && Numbered(history) && nextId == |history| + 1
    }

    /** The entries are the live part of the history. */
    ghost predicate Exact()
      reads this
    {
      entries == Live(history, clock)
    }

    constructor ()
      ensures Valid() && Exact() && entries == [] && history == [] && clock == 0
    {
      entries, nextId, history, clock := [], 1, [], 0;
    }

    method Prune(now: nat)
      requires Valid()
      modifies this
      ensures Valid() && history == old(history) && clock == now
      ensures entries == Pruned(old(entries), now)
      ensures old(Exact()) ==> (Exact() <==> Steady(history, old(clock), now, Newest(history)))
    {
      hide Live, Steady, Numbered, Popped;
      TailAfterPrune(entries, history, now);
      if Exact() {
        PruneExact(entries, history, clock, now);
      }
      var kept := PopStale(entries, CreatedAt, SaturatingSub(now, EXPIRY_MS));
      entries := kept;
      clock := now;
    }

    method Push(request: PushRequest, now: nat) returns (n: Notification)
      requires Valid()
      modifies this
      ensures Valid() && clock == now
      ensures n == Notification(IdFor(|old(history)| + 1), request, now)
      ensures history == old(history) + [n]
      ensures entries == AfterPush(old(entries), n)
      ensures old(Exact()) ==> (Exact() <==> Steady(old(history), old(clock), now, Staying(old(history))))
    {
      hide Live, Steady, IdFor, Pruned, IsTail, Staying;
      n := Notification(IdFor(nextId), request, now);
      TailAfterPush(entries, history, n);
      if Exact() {
        PushExact(entries, history, clock, n);
      }
      Prune(now);
      if |entries| >= MAX_ENTRIES {
        entries := entries[1..];
      }
      nextId := nextId + 1;
      entries := entries + [n];
      history := history + [n];
    }

    method Poll(since: nat, now: nat) returns (r: seq<Notification>)
      requires Valid()
      modifies this
      ensures Valid() && history == old(history) && clock == now
      ensures entries == Pruned(old(entries), now) && r == NewerThan(entries, since)
      ensures old(Exact()) ==> (Exact() <==> Steady(history, old(clock), now, Newest(history)))
      ensures Exact() ==> r == NewerThan(Live(history, now), since)
    {
      hide Steady, Pruned, Live;
      Prune(now);
      r := NewerThan(entries, since);
    }
  }

  // ── Whole runs ────────────────────────────────────────────────────────────

  datatype Op = PushOp(request: PushRequest, now: nat) | PollOp(since: nat, now: nat)

  predicate Monotone(ops: seq<Op>) {
    forall i, j :: 0 <= i < j < |ops| ==> ops[i].now <= ops[j].now
  }

  function Pushed(ops: seq<Op>): seq<Notification> {
    if ops == [] then []
    else
      var before := Pushed(ops[..|ops| - 1]);
      match ops[|ops| - 1]
      case PushOp(request, now) => before + [Notification(IdFor(|before| + 1), request, now)]
      case PollOp(_, _) => before
  }

  /** The entries a run leaves. */
  function EntriesAfter(ops: seq<Op>): seq<Notification> {
    if ops == [] then []
    else
      var before := ops[..|ops| - 1];
      match ops[|ops| - 1]
      case PushOp(request, now) => AfterPush(EntriesAfter(before),
                                             Notification(IdFor(|Pushed(before)| + 1), request, now))
      case PollOp(_, now) => Pruned(EntriesAfter(before), now)
  }

  function ClockAfter(ops: seq<Op>): nat {
    if ops == [] then 0 else ops[|ops| - 1].now
  }

  /** The poll results of a run, in order. */
  function Polls(ops: seq<Op>): seq<seq<Notification>> {
    if ops == [] then []
    else
      var before := ops[..|ops| - 1];
      match ops[|ops| - 1]
      case PollOp(since, now) => Polls(before) + [NewerThan(EntriesAfter(ops), since)]
      case PushOp(_, _) => Polls(before)
  }

  /** The poll results the full history calls for. */
  function Polled(ops: seq<Op>): seq<seq<Notification>> {
    if ops == [] then []
    else
      var before := ops[..|ops| - 1];
      match ops[|ops| - 1]
      case PollOp(since, now) => Polled(before) + [NewerThan(Live(Pushed(before), now), since)]
      case PushOp(_, _) => Polled(before)
  }

  /** The last operation of a run moves the clock steadily. */
  ghost predicate SteadyLast(ops: seq<Op>)
    requires ops != []
  {
    var before := ops[..|ops| - 1];
    var history := Pushed(before);
    Steady(history, ClockAfter(before), ops[|ops| - 1].now,
           if ops[|ops| - 1].PushOp? then Staying(history) else Newest(history))
  }

  /** Every operation of a run moves the clock steadily. */
  ghost predicate SteadyRun(ops: seq<Op>) {
    ops == [] || (SteadyRun(ops[..|ops| - 1]) && SteadyLast(ops))
  }

  ghost predicate ExactAfter(ops: seq<Op>) {
    EntriesAfter(ops) == Live(Pushed(ops), ClockAfter(ops))
  }

  /** The buffer is the live part of the history after every operation of a run. */
  ghost predicate ExactRun(ops: seq<Op>) {
    ExactAfter(ops) && (ops == [] || ExactRun(ops[..|ops| - 1]))
  }

  lemma {:induction false} RunTail(ops: seq<Op>)
    ensures IsTail(EntriesAfter(ops), Pushed(ops))
  {
    if ops != [] {
      hide IsTail, AfterPush, Pruned, IdFor;
      var before := ops[..|ops| - 1];
      RunTail(before);
      match ops[|ops| - 1]
      case PushOp(request, now) =>
        TailAfterPush(EntriesAfter(before), Pushed(before), Notification(IdFor(|Pushed(before)| + 1), request, now));
      case PollOp(_, now) => TailAfterPrune(EntriesAfter(before), Pushed(before), now);
    }
  }

  /** One operation keeps an exact buffer exact exactly when it moves the clock steadily. */
  lemma StepExact(ops: seq<Op>)
    requires ops != [] && ExactAfter(ops[..|ops| - 1])
    ensures ExactAfter(ops) <==> SteadyLast(ops)
  {
    hide IsTail, AfterPush, Pruned, IdFor, Live, Steady, Staying, Newest;
    var before := ops[..|ops| - 1];
    RunTail(before);
    match ops[|ops| - 1]
    case PushOp(request, now) =>
      PushExact(EntriesAfter(before), Pushed(before), ClockAfter(before),
                Notification(IdFor(|Pushed(before)| + 1), request, now));
    case PollOp(_, now) => PruneExact(EntriesAfter(before), Pushed(before), ClockAfter(before), now);
  }

  /**
   * Over any run under any clock the buffer is right throughout if and only if every operation moves the
   * clock steadily.
   */
  lemma {:induction false} RunExact(ops: seq<Op>)
    ensures ExactRun(ops) <==> SteadyRun(ops)
  {
    hide ExactAfter, SteadyLast;
    if ops == [] {
      EmptyExact();
    } else {
      RunExact(ops[..|ops| - 1]);
      if ExactRun(ops[..|ops| - 1]) {
        assert ExactAfter(ops[..|ops| - 1]);
        StepExact(ops);
      }
    }
  }

  lemma EmptyExact()
    ensures ExactAfter([])
  {
  }

  /** In a steady run every poll is what the full history calls for. */
  lemma {:induction false} SteadyPolls(ops: seq<Op>)
    requires SteadyRun(ops)
    ensures Polls(ops) == Polled(ops)
  {
    if ops != [] {
      hide EntriesAfter, Live, NewerThan, SteadyLast;
      SteadyPolls(ops[..|ops| - 1]);
      RunExact(ops);
    }
  }

  /** What a run pushes, in order of time when the clock does not go back. */
  lemma {:induction false} PushedInOrder(ops: seq<Op>)
    requires Monotone(ops)
    ensures InOrder(Pushed(ops), CreatedAt)
    ensures forall i :: 0 <= i < |Pushed(ops)| ==> Pushed(ops)[i].createdAt <= ClockAfter(ops)
  {
    hide IdFor;
    if ops != [] {
      PushedInOrder(ops[..|ops| - 1]);
    }
  }

  lemma {:induction false} MonotoneIsSteady(ops: seq<Op>)
    requires Monotone(ops)
    ensures SteadyRun(ops)
  {
    if ops != [] {
      hide Steady, Pushed;
      var before := ops[..|ops| - 1];
      MonotoneIsSteady(before);
      PushedInOrder(before);
      var history := Pushed(before);
      ForwardIsSteady(history, ClockAfter(before), ops[|ops| - 1].now,
                      if ops[|ops| - 1].PushOp? then Staying(history) else Newest(history));
    }
  }

  predicate RanSoFar(ops: seq<Op>, i: nat, entries: seq<Notification>, history: seq<Notification>,
                     polls: seq<seq<Notification>>)
    requires i <= |ops|
  {
    entries == EntriesAfter(ops[..i]) && history == Pushed(ops[..i]) && polls == Polls(ops[..i])
  }

  lemma RanPush(ops: seq<Op>, i: nat, entries: seq<Notification>, history: seq<Notification>,
                polls: seq<seq<Notification>>)
    requires i < |ops| && RanSoFar(ops, i, entries, history, polls) && ops[i].PushOp?
    ensures var n := Notification(IdFor(|history| + 1), ops[i].request, ops[i].now);
            RanSoFar(ops, i + 1, AfterPush(entries, n), history + [n], polls)
  {
    hide IdFor, AfterPush, Pruned, NewerThan;
    assert ops[..i + 1][..i] == ops[..i];
  }

  lemma RanPoll(ops: seq<Op>, i: nat, entries: seq<Notification>, history: seq<Notification>,
                polls: seq<seq<Notification>>)
    requires i < |ops| && RanSoFar(ops, i, entries, history, polls) && ops[i].PollOp?
    ensures RanSoFar(ops, i + 1, Pruned(entries, ops[i].now), history,
                     polls + [NewerThan(Pruned(entries, ops[i].now), ops[i].since)])
  {
    hide IdFor, AfterPush, Pruned, NewerThan;
    assert ops[..i + 1][..i] == ops[..i];
  }

  /**
   * The buffer over any run under any clock. When the run is steady, and so whenever the
   * clock does not go back, each poll returns exactly those of the last fifty pushes that
   * are unexpired and newer than `since`, in push order.
   */
  method RunBuffer(ops: seq<Op>) returns (polls: seq<seq<Notification>>)
    ensures polls == Polls(ops)
    ensures SteadyRun(ops) ==> polls == Polled(ops)
    ensures Monotone(ops) ==> polls == Polled(ops)
  {
    hide NewerThan, AfterPush, Pruned, Steady, SteadyRun, IdFor, Live, NotificationBuffer.Valid,
         NotificationBuffer.Exact, Polled;
    var buffer := new NotificationBuffer();
    polls := [];
    assert RanSoFar(ops, 0, buffer.entries, buffer.history, polls);
    for i := 0 to |ops|
      invariant buffer.Valid() && RanSoFar(ops, i, buffer.entries, buffer.history, polls)
    {
      hide RanSoFar;
      match ops[i]
      case PushOp(request, now) =>
        RanPush(ops, i, buffer.entries, buffer.history, polls);
        var n := buffer.Push(request, now);
      case PollOp(since, now) =>
        RanPoll(ops, i, buffer.entries, buffer.history, polls);
        var r := buffer.Poll(since, now);
        polls := polls + [r];
    }
    assert ops[..|ops|] == ops;
    if Monotone(ops) {
      MonotoneIsSteady(ops);
    }
    if SteadyRun(ops) {
      SteadyPolls(ops);
    }
  }

  // ── What a poll returns ───────────────────────────────────────────────────

  /** What the history calls for: the unexpired among the last fifty newer than `since`. */
  lemma PollContents(history: seq<Notification>, now: nat, since: nat, i: nat)
    requires Numbered(history) && i < |history|
    ensures history[i] in NewerThan(Live(history, now), since)
            <==> |history| - 50 <= i && now <= history[i].createdAt + 60_000 && history[i].createdAt > since
  {
    hide Recent, IdFor, Numbered;
    RecentMember(Newest(history), CreatedAt, Cutoff(now), history[i]);
    RecentMember(Live(history, now), CreatedAt, since + 1, history[i]);
    NewestMember(history, i);
  }

  lemma NewestMember(history: seq<Notification>, i: nat)
    requires Numbered(history) && i < |history|
    ensures history[i] in Newest(history) <==> |history| - MAX_ENTRIES <= i
  {
    hide IdFor;
    var newest := Newest(history);
    var start := |history| - |newest|;
    if i >= start {
      assert newest[i - start] == history[i];
    }
    if k :| 0 <= k < |newest| && newest[k] == history[i] {
      assert history[start + k] == newest[k];
      IdInjective(start + k + 1, i + 1);
    }
  }

  /** In order of time a poll never reorders, skips or repeats pushes. */
  function Due(now: nat, since: nat): Notification -> bool {
    (n: Notification) => now <= n.createdAt + 60_000 && n.createdAt > since
  }

  /** A poll of a right buffer is what the newest fifty hold from the last minute and after the mark, in order. */
  lemma PollSelects(history: seq<Notification>, now: nat, since: nat)
    ensures var newest := if |history| <= 50 then history else history[|history| - 50..];
            Selects(newest, NewerThan(Live(history, now), since), Due(now, since))
  {
    hide Selects, Recent, Filter;
    DueIs(Newest(history), now, since);
    FilterSelects(Newest(history), Due(now, since));
  }

  lemma DueIs(s: seq<Notification>, now: nat, since: nat)
    ensures NewerThan(Recent(s, CreatedAt, Cutoff(now)), since) == Filter(s, Due(now, since))
  {
    hide Recent, Filter;
    var live := Recent(s, CreatedAt, Cutoff(now));
    RecentIsFilter(s, CreatedAt, Cutoff(now));
    RecentIsFilter(live, CreatedAt, since + 1);
    forall n: Notification
      ensures Due(now, since)(n)
              == (NotBefore(CreatedAt, Cutoff(now))(n) && NotBefore(CreatedAt, since + 1)(n))
    {
      assert CreatedAt(n) == n.createdAt;
    }
    FilterFilter(s, NotBefore(CreatedAt, Cutoff(now)), NotBefore(CreatedAt, since + 1), Due(now, since));
  }

  /** Under any clock: entries more than a minute old leave the front, up to the first that is not. */
  ghost predicate LeavesEntries(entries: seq<Notification>, left: seq<Notification>, now: nat) {
    && |left| <= |entries| && left == entries[|entries| - |left|..]
    && (forall i :: 0 <= i < |entries| - |left| ==> now > entries[i].createdAt + 60_000)
    && (left != [] ==> now <= left[0].createdAt + 60_000)
  }

  lemma PrunedLeaves(entries: seq<Notification>, now: nat)
    ensures LeavesEntries(entries, Pruned(entries, now), now)
  {
    hide Popped;
  }

  /** A push prunes, makes room in a list of fifty by dropping the oldest entry, and appends. */
  lemma AfterPushIs(entries: seq<Notification>, n: Notification)
    ensures var left := Pruned(entries, n.createdAt);
            && LeavesEntries(entries, left, n.createdAt)
            && AfterPush(entries, n) == (if |left| >= 50 then left[1..] else left) + [n]
  {
    PrunedLeaves(entries, n.createdAt);
  }

  lemma FirstId()
    ensures IdFor(1) == "notif-1"
  {
    PrintSmall();
  }

  lemma PollIsSuffix(history: seq<Notification>, now: nat, since: nat)
    requires InOrder(history, CreatedAt)
    ensures var r := NewerThan(Live(history, now), since);
            |r| <= |history| && r == history[|history| - |r|..]
  {
    hide Recent;
    var cutoff := Cutoff(now);
    RecentIsSuffix(Newest(history), CreatedAt, cutoff);
    RecentInOrder(Newest(history), CreatedAt, cutoff);
    RecentIsSuffix(Live(history, now), CreatedAt, since + 1);
  }

  /** A push at 100 s, one at 30 s after the clock stepped back, and a poll at 95 s. */
  function StepBack(a: PushRequest, b: PushRequest): seq<Op> {
    [PushOp(a, 100000), PushOp(b, 30000), PollOp(0, 95000)]
  }

  /** The poll returns the second push too, expired for 5 s behind an unexpired one. */
  lemma ClockStepBack(a: PushRequest, b: PushRequest)
    ensures var first, second := Notification(IdFor(1), a, 100000), Notification(IdFor(2), b, 30000);
            Polls(StepBack(a, b)) == [[first, second]] && Polled(StepBack(a, b)) == [[first]]
    ensures !SteadyRun(StepBack(a, b))
  {
    hide IdFor, RanSoFar, EntriesAfter, Pushed, Live, NewerThan, SteadyRun, Polled, Polls, Recent, Popped, Pruned,
         AfterPush;
    var first, second := Notification(IdFor(1), a, 100000), Notification(IdFor(2), b, 30000);
    StepBackEntries(first, second);
    StepBackRun(StepBack(a, b), first, second);
    NothingPolledYet(StepBack(a, b));
    DifferentPolls(StepBack(a, b), first, second);
  }

  lemma DifferentPolls(ops: seq<Op>, first: Notification, second: Notification)
    requires Polls(ops) == [[first, second]] && Polled(ops) == [[first]]
    ensures !SteadyRun(ops)
  {
    hide Polls, Polled, SteadyRun;
    assert [[first, second]][0] != [[first]][0];
    if SteadyRun(ops) {
      SteadyPolls(ops);
    }
  }

  lemma StepBackRun(ops: seq<Op>, first: Notification, second: Notification)
    requires |ops| == 3 && ops[0].PushOp? && ops[1].PushOp? && ops[2] == PollOp(0, 95000)
    requires first == Notification(IdFor(1), ops[0].request, ops[0].now)
             && second == Notification(IdFor(2), ops[1].request, ops[1].now)
    requires first.createdAt == 100000 && second.createdAt == 30000
    ensures Pushed(ops[..2]) == [first, second] && Polls(ops) == [[first, second]]
  {
    hide IdFor, AfterPush, Pruned, NewerThan, EntriesAfter, Pushed, Polls;
    StepBackEntries(first, second);
    assert RanSoFar(ops, 0, [], [], []) by {
      NothingRan(ops);
    }
    RanPush(ops, 0, [], [], []);
    assert [] + [first] == [first];
    RanPush(ops, 1, [first], [first], []);
    assert [first] + [second] == [first, second];
    RanPoll(ops, 2, [first, second], [first, second], []);
    assert ops[..3] == ops;
  }

  lemma NothingRan(ops: seq<Op>)
    ensures RanSoFar(ops, 0, [], [], [])
  {
  }

  lemma NothingPolledYet(ops: seq<Op>)
    requires |ops| == 3 && ops[0].PushOp? && ops[1].PushOp? && ops[2].PollOp?
    ensures Polled(ops) == [NewerThan(Live(Pushed(ops[..2]), ops[2].now), ops[2].since)]
  {
    hide Live, NewerThan, Pushed;
    assert ops[..2][..1] == ops[..1] && ops[..1][..0] == [];
    assert Polled(ops[..1]) == [];
    assert Polled(ops[..2]) == [];
  }

  lemma StepBackEntries(first: Notification, second: Notification)
    requires first.createdAt == 100000 && second.createdAt == 30000
    ensures AfterPush([], first) == [first] && AfterPush([first], second) == [first, second]
    ensures Pruned([first, second], 95000) == [first, second] && Live([first, second], 95000) == [first]
    ensures NewerThan([first, second], 0) == [first, second] && NewerThan([first], 0) == [first]
  {
    var both := [first, second];
    assert both[1..] == [second] && [second][1..] == [] && [first][1..] == [];
    RecentAll(both, CreatedAt, 1);
    RecentAll([first], CreatedAt, 1);
    RecentNone([second], CreatedAt, 35000);
  }
}
