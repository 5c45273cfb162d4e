/** Runs of issuing and redeeming invites and reclaiming addresses (node/daemon/src/invite.rs and wireguard.rs). */
module InviteRuns {
  import opened Addresses
  import opened Decimal
  import opened Invites
  import opened Prelude
  import opened Tokens

  datatype Op<A> =
    | Issue(identity: Identity, endpoint: Option<string>, daemonPort: U16, expiresAt: U64, guas: seq<A>, wgPort: U16,
            profile: Option<NatProfile>, relays: seq<string>, psk: string)
    | Redeem(psk: string, now: nat)
    | Reclaim(address: string)

  /** What an operation does. */
  datatype Event =
    | Issued(invite: PendingInvite)
    | Refused
    | Redeemed(invite: PendingInvite)
    | Expired(invite: PendingInvite)
    | Unmatched
    | Reclaimed(address: string)

  // ── What a log leaves ─────────────────────────────────────────────────────

  function Issues(log: seq<Event>): seq<PendingInvite> {
    if log == [] then []
    else
      var e := log[|log| - 1];
      Issues(log[..|log| - 1]) + if e.Issued? then [e.invite] else []
  }

  /** The invites taken off the list, handed out or not. */
  function Taken(log: seq<Event>): seq<PendingInvite> {
    if log == [] then []
    else
      var e := log[|log| - 1];
      Taken(log[..|log| - 1]) + if e.Redeemed? || e.Expired? then [e.invite] else []
  }

  /** The invites on the list. */
  function Waiting(log: seq<Event>): seq<PendingInvite> {
    if log == [] then []
    else
      var before, e := Waiting(log[..|log| - 1]), log[|log| - 1];
      if e.Issued? then before + [e.invite]
      else if e.Redeemed? || e.Expired? then TakeFirst(before, e.invite.psk)
      else before
  }

  /** The addresses assigned and not reclaimed since, in the order of assignment. */
  function Held(log: seq<Event>): seq<string> {
    if log == [] then []
    else
      var before, e := Held(log[..|log| - 1]), log[|log| - 1];
      if e.Issued? then before + [e.invite.assignedIp]
      else if e.Reclaimed? then Without(before, e.address)
      else before
  }

  lemma LogSnoc(log: seq<Event>, e: Event)
    ensures Waiting(log + [e])
            == if e.Issued? then Waiting(log) + [e.invite]
               else if e.Redeemed? || e.Expired? then TakeFirst(Waiting(log), e.invite.psk)
               else Waiting(log)
    ensures Held(log + [e])
            == if e.Issued? then Held(log) + [e.invite.assignedIp]
               else if e.Reclaimed? then Without(Held(log), e.address)
               else Held(log)
  {
    var longer := log + [e];
    assert longer[|longer| - 1] == e && longer[..|longer| - 1] == log;
  }

  // ── What each operation answers ───────────────────────────────────────────

  /** An invite for this request, on the least free address. */
  ghost predicate Fits<A>(op: Op<A>, held: seq<string>, inv: PendingInvite)
    requires op.Issue?
  {
    && inv.psk == op.psk && inv.expiresAt == op.expiresAt
    && exists k :: LeastFree(held, k) && inv.assignedIp == Candidate(k)
  }

  ghost predicate AnswersIssue<A>(op: Op<A>, held: seq<string>, e: Event)
    requires op.Issue?
  {
    if Unissuable(op.identity, op.endpoint, op.guas) || TakenBelow(held, SPACE) then e == Refused
    else e.Issued? && Fits(op, held, e.invite)
  }

  predicate AnswersRedeem<A>(op: Op<A>, waiting: seq<PendingInvite>, e: Event)
    requires op.Redeem?
  {
    var i := Position(waiting, op.psk);
    e == if i == |waiting| then Unmatched
         else if waiting[i].expiresAt < op.now then Expired(waiting[i])
         else Redeemed(waiting[i])
  }

  ghost predicate Answers<A>(op: Op<A>, log: seq<Event>, e: Event) {
    if op.Issue? then AnswersIssue(op, Held(log), e)
    else if op.Redeem? then AnswersRedeem(op, Waiting(log), e)
    else e == Reclaimed(op.address)
  }

  /** The log answers the operations one by one. */
  ghost predicate Replies<A>(ops: seq<Op<A>>, log: seq<Event>) {
    |log| == |ops| && forall k :: 0 <= k < |log| ==> Answers(ops[k], log[..k], log[k])
  }

  lemma RepliesSnoc<A>(ops: seq<Op<A>>, log: seq<Event>, op: Op<A>, e: Event)
    ensures Replies(ops + [op], log + [e]) <==> |log| == |ops| && Replies(ops, log) && Answers(op, log, e)
  {
    hide Answers;
    var all, longer := ops + [op], log + [e];
    assert forall k :: 0 <= k < |log| ==> longer[..k] == log[..k] && longer[k] == log[k];
    assert forall k :: 0 <= k < |ops| ==> all[k] == ops[k];
    assert longer[..|log|] == log;
    if |log| == |ops| && Replies(all, longer) {
      assert Answers(all[|log|], longer[..|log|], longer[|log|]);
      forall k | 0 <= k < |log|
        ensures Answers(ops[k], log[..k], log[k])
      {
        assert Answers(all[k], longer[..k], longer[k]);
      }
    }
  }

  /** Dropping the last operation and its answer. */
  lemma RepliesLast<A>(ops: seq<Op<A>>, log: seq<Event>)
    requires Replies(ops, log) && log != []
    ensures var n := |log| - 1;
            && Replies(ops[..n], log[..n]) && Answers(ops[n], log[..n], log[n])
            && ops[..n] + [ops[n]] == ops && log[..n] + [log[n]] == log
  {
    hide Answers;
    var n := |log| - 1;
    LastSplit(log);
    LastSplit(ops);
    RepliesSnoc(ops[..n], log[..n], ops[n], log[n]);
  }

  lemma NothingLogged()
    ensures Waiting([]) == [] && Held([]) == [] && WellKept([])
  {
  }

  // ── The program's runs ────────────────────────────────────────────────────

  /** Any run on a fresh store: its log answers the operations and leaves what is on the list and in the book. */
  method RunInvites<A(!new)>(t: AddressText<A>, ops: seq<Op<A>>) returns (store: InviteStore, log: seq<Event>)
    ensures Replies(ops, log)
    ensures store.pending == Waiting(log) && store.book.addresses == Held(log)
  {
    hide Answers, Waiting, Held;
    var book := new AddressBook();
    store := new InviteStore(book);
    log := [];
    NothingLogged();
    for i := 0 to |ops|
      invariant fresh(store) && fresh(store.book)
      invariant Replies(ops[..i], log)
      invariant store.pending == Waiting(log) && store.book.addresses == Held(log)
    {
      var e := RunStep(t, store, ops[i], log);
      assert ops[..i] + [ops[i]] == ops[..i + 1];
      RepliesSnoc(ops[..i], log, ops[i], e);
      log := log + [e];
    }
    assert ops[..|ops|] == ops;
  }

  method RunStep<A(!new)>(t: AddressText<A>, store: InviteStore, op: Op<A>, ghost log: seq<Event>) returns (e: Event)
    requires store.pending == Waiting(log) && store.book.addresses == Held(log)
    modifies store, store.book
    ensures Answers(op, log, e)
    ensures store.pending == Waiting(log + [e]) && store.book.addresses == Held(log + [e])
  {
    hide Waiting, Held, LeastFree, TakenBelow, Candidate, Unissuable, Tokens.InvitePayload, Tokens.DecodeInvite,
         Faithful;
    match op
    case Issue(identity, endpoint, daemonPort, expiresAt, guas, wgPort, profile, relays, psk) =>
      var r, inv := store.Generate(t, identity, endpoint, daemonPort, expiresAt, guas, wgPort, profile, relays, psk);
      e := if inv.Some? then Issued(PendingFor(t, inv.value)) else Refused;
      LogSnoc(log, e);
    case Redeem(psk, now) =>
      var i := Position(store.pending, psk);
      e := if i == |store.pending| then Unmatched
           else if store.pending[i].expiresAt < now then Expired(store.pending[i])
           else Redeemed(store.pending[i]);
      var r := store.ConsumeByPsk(psk, now);
      LogSnoc(log, e);
    case Reclaim(address) =>
      store.book.ReclaimAddress(address);
      e := Reclaimed(address);
      LogSnoc(log, e);
  }

  // ── Conservation ──────────────────────────────────────────────────────────

  lemma CountSnoc(s: seq<PendingInvite>, inv: PendingInvite)
    ensures multiset(s + [inv]) == multiset(s) + multiset{inv}
  {
  }

  lemma CountsSnoc(log: seq<Event>, e: Event)
    ensures multiset(Issues(log + [e]))
            == if e.Issued? then multiset(Issues(log)) + multiset{e.invite} else multiset(Issues(log))
    ensures multiset(Taken(log + [e]))
            == if e.Redeemed? || e.Expired? then multiset(Taken(log)) + multiset{e.invite} else multiset(Taken(log))
  {
    var longer := log + [e];
    assert longer[|longer| - 1] == e && longer[..|longer| - 1] == log;
    assert Issues(log) + [] == Issues(log) && Taken(log) + [] == Taken(log);
    if e.Issued? || e.Redeemed? || e.Expired? {
      CountSnoc(Issues(log), e.invite);
      CountSnoc(Taken(log), e.invite);
    }
  }

  lemma RemoveAt(s: seq<PendingInvite>, i: nat)
    requires i < |s|
    ensures multiset(s) == multiset(s[..i] + s[i + 1..]) + multiset{s[i]}
  {
    assert s == s[..i] + [s[i]] + s[i + 1..];
  }

  lemma TakeFirstSplit(waiting: seq<PendingInvite>, psk: string)
    requires Position(waiting, psk) < |waiting|
    ensures multiset(waiting) == multiset(TakeFirst(waiting, psk)) + multiset{waiting[Position(waiting, psk)]}
  {
    hide Position;
    RemoveAt(waiting, Position(waiting, psk));
  }

  lemma TakenSplit<A>(op: Op<A>, waiting: seq<PendingInvite>, e: Event)
    requires op.Redeem? && AnswersRedeem(op, waiting, e) && (e.Redeemed? || e.Expired?)
    ensures multiset(waiting) == multiset(TakeFirst(waiting, e.invite.psk)) + multiset{e.invite}
  {
    hide Position, TakeFirst;
    TakeFirstSplit(waiting, op.psk);
  }

  /** No invite is lost or made up: those issued are those on the list and those taken off it. */
  lemma {:induction false} Conserved<A>(ops: seq<Op<A>>, log: seq<Event>)
    requires Replies(ops, log)
    ensures multiset(Issues(log)) == multiset(Waiting(log)) + multiset(Taken(log))
  {
    if log != [] {
      var n := |log| - 1;
      RepliesLast(ops, log);
      Conserved(ops[..n], log[..n]);
      ConservedStep(ops[n], log[..n], log[n]);
    }
  }

  lemma ConservedStep<A>(op: Op<A>, log: seq<Event>, e: Event)
    requires Answers(op, log, e)
    requires multiset(Issues(log)) == multiset(Waiting(log)) + multiset(Taken(log))
    ensures multiset(Issues(log + [e])) == multiset(Waiting(log + [e])) + multiset(Taken(log + [e]))
  {
    hide AnswersRedeem, TakeFirst, Fits, Issues, Taken, Waiting, Held, Unissuable, TakenBelow;
    LogSnoc(log, e);
    CountsSnoc(log, e);
    if op.Issue? && e.Issued? {
      CountSnoc(Waiting(log), e.invite);
    } else if op.Redeem? && (e.Redeemed? || e.Expired?) {
      TakenSplit(op, Waiting(log), e);
    } else if op.Redeem? {
      TakenAs(op, Waiting(log), e);
    }
  }

  // ── Addresses ─────────────────────────────────────────────────────────────

  /** Over any run the addresses assigned and not reclaimed since are distinct addresses of the space. */
  lemma {:induction false} HeldAreDistinct<A>(ops: seq<Op<A>>, log: seq<Event>)
    requires Replies(ops, log)
    ensures WellKept(Held(log))
  {
    hide Fits, LeastFree, TakenBelow, Unissuable, Position, WellKept, Waiting;
    NothingLogged();
    if log != [] {
      var n := |log| - 1;
      RepliesLast(ops, log);
      HeldAreDistinct(ops[..n], log[..n]);
      HeldStep(ops[n], log[..n], log[n]);
    }
  }

  lemma HeldStep<A>(op: Op<A>, log: seq<Event>, e: Event)
    requires Answers(op, log, e) && WellKept(Held(log))
    ensures WellKept(Held(log + [e]))
  {
    hide LeastFree, TakenBelow, Unissuable, Position, WellKept, Waiting, Held, Candidate;
    LogSnoc(log, e);
    if op.Issue? && e.Issued? {
      var k :| LeastFree(Held(log), k) && e.invite.assignedIp == Candidate(k);
      AssignKeepsWell(Held(log), k);
    } else if op.Reclaim? {
      ReclaimKeepsWell(Held(log), op.address);
    }
  }

  // ── Redeeming ─────────────────────────────────────────────────────────────

  /** No key is drawn twice. */
  predicate DistinctDraws<A>(ops: seq<Op<A>>) {
    forall i, j :: 0 <= i < j < |ops| && ops[i].Issue? && ops[j].Issue? ==> ops[i].psk != ops[j].psk
  }

  /** Nobody has tried to redeem the key in these operations. */
  predicate Untried<A>(ops: seq<Op<A>>, psk: string) {
    forall k :: 0 <= k < |ops| && ops[k].Redeem? ==> ops[k].psk != psk
  }

  /** Issued, with no attempt to redeem it since. */
  ghost predicate Open<A>(ops: seq<Op<A>>, log: seq<Event>, inv: PendingInvite) {
    exists j :: 0 <= j < |log| <= |ops| && log[j] == Issued(inv) && Untried(ops[j + 1..], inv.psk)
  }

  lemma OpenSnoc<A>(ops: seq<Op<A>>, log: seq<Event>, op: Op<A>, e: Event, inv: PendingInvite)
    requires |log| == |ops|
    ensures Open(ops + [op], log + [e], inv)
            <==> e == Issued(inv) || (Open(ops, log, inv) && !(op.Redeem? && op.psk == inv.psk))
  {
    var all, longer := ops + [op], log + [e];
    assert Untried(all[|log| + 1..], inv.psk);
    forall j | 0 <= j < |log|
      ensures all[j + 1..] == ops[j + 1..] + [op] && longer[j] == log[j]
      ensures Untried(all[j + 1..], inv.psk) <==> Untried(ops[j + 1..], inv.psk) && !(op.Redeem? && op.psk == inv.psk)
    {
      UntriedSnoc(ops[j + 1..], op, inv.psk);
    }
    if e == Issued(inv) {
      assert longer[|log|] == Issued(inv);
    }
    if Open(ops, log, inv) && !(op.Redeem? && op.psk == inv.psk) {
      var j :| 0 <= j < |log| && log[j] == Issued(inv) && Untried(ops[j + 1..], inv.psk);
      assert longer[j] == Issued(inv);
    }
  }

  lemma UntriedSnoc<A>(ops: seq<Op<A>>, op: Op<A>, psk: string)
    ensures Untried(ops + [op], psk) <==> Untried(ops, psk) && !(op.Redeem? && op.psk == psk)
  {
    var all := ops + [op];
    assert all[|ops|] == op;
    if Untried(all, psk) {
      forall k | 0 <= k < |ops| && ops[k].Redeem?
        ensures ops[k].psk != psk
      {
        assert all[k] == ops[k];
      }
    }
  }

  predicate DistinctKeys(invites: seq<PendingInvite>) {
    forall i, j :: 0 <= i < j < |invites| ==> invites[i].psk != invites[j].psk
  }

  lemma TakeFirstMembers(pending: seq<PendingInvite>, psk: string)
    requires DistinctKeys(pending)
    ensures DistinctKeys(TakeFirst(pending, psk))
    ensures forall inv :: inv in TakeFirst(pending, psk) <==> inv in pending && inv.psk != psk
  {
  }

  /** Over any run with distinct keys the list holds the invites issued that nobody has tried to redeem since. */
  lemma {:induction false} WaitingAreOpen<A>(ops: seq<Op<A>>, log: seq<Event>)
    requires Replies(ops, log) && DistinctDraws(ops)
    ensures DistinctKeys(Waiting(log))
    ensures forall inv :: inv in Waiting(log) <==> Open(ops, log, inv)
  {
    if log != [] {
      var n := |log| - 1;
      RepliesLast(ops, log);
      WaitingAreOpen(ops[..n], log[..n]);
      WaitingStep(ops[..n], log[..n], ops[n], log[n]);
    }
  }

  lemma WaitingStep<A>(ops: seq<Op<A>>, log: seq<Event>, op: Op<A>, e: Event)
    requires |log| == |ops| && Replies(ops, log) && Answers(op, log, e) && DistinctDraws(ops + [op])
    requires DistinctKeys(Waiting(log)) && forall inv :: inv in Waiting(log) <==> Open(ops, log, inv)
    ensures DistinctKeys(Waiting(log + [e]))
    ensures forall inv :: inv in Waiting(log + [e]) <==> Open(ops + [op], log + [e], inv)
  {
    hide Fits, TakenBelow, Unissuable, Replies, Waiting, Held, Open, TakeFirst, DistinctDraws, DistinctKeys, Position;
    LogSnoc(log, e);
    forall inv: PendingInvite
      ensures Open(ops + [op], log + [e], inv)
              <==> e == Issued(inv) || (Open(ops, log, inv) && !(op.Redeem? && op.psk == inv.psk))
    {
      OpenSnoc(ops, log, op, e, inv);
    }
    if op.Redeem? {
      TakeFirstMembers(Waiting(log), op.psk);
      TakenAs(op, Waiting(log), e);
    } else if e.Issued? {
      forall inv | inv in Waiting(log)
        ensures inv.psk != op.psk
      {
        OpenWasDrawn(ops, log, op, inv);
      }
      NewKey(Waiting(log), op, Held(log), e.invite);
    }
  }

  lemma NewKey<A>(waiting: seq<PendingInvite>, op: Op<A>, held: seq<string>, inv: PendingInvite)
    requires DistinctKeys(waiting) && op.Issue? && Fits(op, held, inv)
    requires forall w :: w in waiting ==> w.psk != op.psk
    ensures DistinctKeys(waiting + [inv])
  {
  }

  /** The answer to a request to redeem tells what comes off the list. */
  lemma TakenAs<A>(op: Op<A>, waiting: seq<PendingInvite>, e: Event)
    requires op.Redeem? && AnswersRedeem(op, waiting, e)
    ensures !e.Issued? && (e.Redeemed? || e.Expired? ==> e.invite.psk == op.psk)
    ensures !(e.Redeemed? || e.Expired?) ==> TakeFirst(waiting, op.psk) == waiting
  {
  }

  /** An open invite has another key than the one drawn next. */
  lemma OpenWasDrawn<A>(ops: seq<Op<A>>, log: seq<Event>, op: Op<A>, inv: PendingInvite)
    requires Replies(ops, log) && DistinctDraws(ops + [op]) && op.Issue? && Open(ops, log, inv)
    ensures inv.psk != op.psk
  {
    hide Held, Waiting, LeastFree, Unissuable, TakenBelow, DistinctDraws;
    var j :| 0 <= j < |log| && log[j] == Issued(inv);
    assert Answers(ops[j], log[..j], log[j]);
    DrawsDiffer(ops, op, j);
  }

  lemma DrawsDiffer<A>(ops: seq<Op<A>>, op: Op<A>, j: nat)
    requires DistinctDraws(ops + [op]) && j < |ops| && ops[j].Issue? && op.Issue?
    ensures ops[j].psk != op.psk
  {
    var all := ops + [op];
    assert all[j] == ops[j] && all[|ops|] == op;
  }

  lemma RepliesPrefix<A>(ops: seq<Op<A>>, log: seq<Event>, k: nat)
    requires Replies(ops, log) && DistinctDraws(ops) && k < |log|
    ensures k < |ops|
    ensures Replies(ops[..k], log[..k]) && DistinctDraws(ops[..k]) && Answers(ops[k], log[..k], log[k])
  {
    hide Answers;
    forall j | 0 <= j < k
      ensures Answers(ops[..k][j], log[..k][..j], log[..k][j])
    {
      assert log[..k][..j] == log[..j];
    }
  }

  /**
   * Over any run with distinct keys a request to redeem is granted exactly when it names the key of
   * an invite issued before, unexpired, that nobody has tried to redeem since.
   */
  lemma RedeemedExactly<A>(ops: seq<Op<A>>, log: seq<Event>, k: nat, inv: PendingInvite)
    requires Replies(ops, log) && DistinctDraws(ops) && k < |log| && ops[k].Redeem?
    ensures log[k] == Redeemed(inv)
            <==> inv.psk == ops[k].psk && ops[k].now <= inv.expiresAt && Open(ops[..k], log[..k], inv)
  {
    hide Replies, DistinctDraws, Open, Waiting, Position;
    RepliesPrefix(ops, log, k);
    WaitingAreOpen(ops[..k], log[..k]);
    OnlyMatch(Waiting(log[..k]), ops[k].psk, inv);
  }

  lemma OnlyMatch(waiting: seq<PendingInvite>, psk: string, inv: PendingInvite)
    requires DistinctKeys(waiting)
    ensures var i := Position(waiting, psk);
            (i < |waiting| && waiting[i] == inv) <==> (inv in waiting && inv.psk == psk)
  {
  }

  /** Over any run with distinct keys no key is redeemed twice. */
  lemma RedeemedOnce<A>(ops: seq<Op<A>>, log: seq<Event>, j: nat, k: nat)
    requires Replies(ops, log) && DistinctDraws(ops)
    requires j < k < |log| && log[j].Redeemed? && log[k].Redeemed?
    ensures log[j].invite.psk != log[k].invite.psk
  {
    hide Answers, AnswersIssue, Waiting, Held, DistinctDraws;
    if log[j].invite.psk == log[k].invite.psk {
      var m := RedeemedAfterIssue(ops, log, j, j);
      var n := RedeemedAfterIssue(ops, log, k, j);
      DrawnOnce(ops, m, n);
    }
  }

  /** An invite issued or redeemed has the key of the operation. */
  lemma KeyOf<A>(ops: seq<Op<A>>, log: seq<Event>, k: nat)
    requires Replies(ops, log) && k < |log|
    ensures |log| == |ops|
    ensures log[k].Issued? ==> ops[k].Issue? && log[k].invite.psk == ops[k].psk
    ensures log[k].Redeemed? ==> ops[k].Redeem? && log[k].invite.psk == ops[k].psk
  {
    hide Waiting, Held, LeastFree, TakenBelow, Unissuable;
    assert Answers(ops[k], log[..k], log[k]);
  }

  /** Where the invite redeemed at `k` was issued, which is after any earlier request at `j` to redeem its key. */
  lemma RedeemedAfterIssue<A>(ops: seq<Op<A>>, log: seq<Event>, k: nat, j: nat) returns (m: nat)
    requires Replies(ops, log) && DistinctDraws(ops)
    requires j <= k < |log| && log[k].Redeemed? && log[j].Redeemed? && log[j].invite.psk == log[k].invite.psk
    ensures m < k && ops[m].Issue? && ops[m].psk == log[k].invite.psk && (j < k ==> j < m)
  {
    hide Replies, DistinctDraws, Untried;
    KeyOf(ops, log, j);
    KeyOf(ops, log, k);
    RedeemedExactly(ops, log, j, log[j].invite);
    RedeemedExactly(ops, log, k, log[k].invite);
    m :| 0 <= m < k && log[..k][m] == Issued(log[k].invite) && Untried(ops[..k][m + 1..], log[k].invite.psk);
    KeyOf(ops, log, m);
    UntriedAt(ops[..k], m, j, log[k].invite.psk);
  }

  lemma UntriedAt<A>(ops: seq<Op<A>>, m: nat, j: nat, psk: string)
    requires m < |ops| && Untried(ops[m + 1..], psk)
    ensures m < j < |ops| && ops[j].Redeem? ==> ops[j].psk != psk
  {
    if m < j < |ops| {
      assert ops[m + 1..][j - m - 1] == ops[j];
    }
  }

  lemma DrawnOnce<A>(ops: seq<Op<A>>, m: nat, n: nat)
    requires DistinctDraws(ops) && m < |ops| && n < |ops| && ops[m].Issue? && ops[n].Issue? && ops[m].psk == ops[n].psk
    ensures m == n
  {
  }
}
