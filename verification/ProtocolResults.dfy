/** What two peers end with, over every run of the exchange. */
module ProtocolResults {
  import opened Prelude
  import opened Scope
  import opened Messages
  import opened Codec
  import opened ScopeExchange
  import opened Wire
  import opened Transport
  import opened Negotiation
  import opened Agreement
  import opened Session
  import opened Protocol

  // ── Agreement on names ────────────────────────────────────────────────────

  function AgreedNames(cfg: Config, side: Side): seq<Str> {
    FinalSet(ManifestOf(cfg, side), GateOf(cfg, side), ManifestOf(cfg, Other(side)), GateOf(cfg, Other(side)))
  }

  lemma SeenReplyNames(cfg: Config, side: Side)
    ensures SeenReply(cfg, side).0
            == Intersection(ManifestOf(cfg, side), ManifestOf(cfg, Other(side)), GateOf(cfg, side))
  {
    hide Intersection, ParamsFor, ReceivedParams;
    ReceivedIntersection(ManifestOf(cfg, side), ManifestOf(cfg, Other(side)), GateOf(cfg, side));
  }

  lemma FinalViewNames(cfg: Config, side: Side)
    ensures FinalView(cfg, side).activeSet == AgreedNames(cfg, side)
    ensures FinalView(cfg, side).state == if AgreedNames(cfg, side) == [] then NoneMatched else Active
  {
    hide Intersection, Agreed, ParamsFor, ConfirmedParams, SeenReply;
    SeenReplyNames(cfg, Other(side));
    ReceivedIntersection(ManifestOf(cfg, side), ManifestOf(cfg, Other(side)), GateOf(cfg, side));
  }

  predicate BothFinal(s: Net) {
    s.initiator.pc == 4 && s.responder.pc == 4
  }

  lemma FinalNode(cfg: Config, run: seq<Net>, k: nat, side: Side)
    requires IsRun(cfg, run) && k < |run| && NodeOf(run[k], side).pc == 4
    ensures NodeOf(run[k], side).view == FinalView(cfg, side)
  {
    hide FinalView, Seen, SeenReply, ChannelInto, Next;
    RunKeepsInv(cfg, run, k);
  }

  /**
   * In every interleaving, with any faults: whenever both sides have finalized they are in
   * the same end state and hold the same names. They hold the same sequence exactly when
   * each agreed name is declared, with a counterpart, equally often on both sides.
   */
  lemma NamesAgreement(cfg: Config, run: seq<Net>, k: nat)
    requires IsRun(cfg, run) && k < |run| && BothFinal(run[k])
    ensures var a, b := run[k].initiator.view, run[k].responder.view;
            && a.state == b.state
            && a.state == (if a.activeSet == [] then NoneMatched else Active)
            && (forall n :: n in a.activeSet <==> n in b.activeSet)
            && (forall n :: n in a.activeSet <==>
                  && Compatible(cfg.initiator.capabilities, cfg.responder.capabilities, n)
                  && Passes(cfg.initiatorGate, n, cfg.responder.peerId)
                  && Passes(cfg.responderGate, n, cfg.initiator.peerId))
            && (a.activeSet == b.activeSet <==>
                forall n :: n in a.activeSet ==>
                              Declarations(cfg.initiator.capabilities, cfg.responder.capabilities, n)
                              == Declarations(cfg.responder.capabilities, cfg.initiator.capabilities, n))
  {
    hide FinalView, FinalSet, Declarations, Compatible, Passes, IsRun;
    FinalNode(cfg, run, k, Initiator);
    FinalNode(cfg, run, k, Responder);
    FinalViewNames(cfg, Initiator);
    FinalViewNames(cfg, Responder);
    SameNames(cfg.initiator, cfg.initiatorGate, cfg.responder, cfg.responderGate);
    SameSequence(cfg.initiator, cfg.initiatorGate, cfg.responder, cfg.responderGate);
    forall n: Str
      ensures n in run[k].initiator.view.activeSet <==>
                && Compatible(cfg.initiator.capabilities, cfg.responder.capabilities, n)
                && Passes(cfg.initiatorGate, n, cfg.responder.peerId)
                && Passes(cfg.responderGate, n, cfg.initiator.peerId)
    {
      FinalSetMember(cfg.initiator, cfg.initiatorGate, cfg.responder, cfg.responderGate, n);
    }
  }

  /** With distinct names in each manifest both sides hold the same sequence. */
  lemma SequenceAgreement(cfg: Config, run: seq<Net>, k: nat)
    requires IsRun(cfg, run) && k < |run| && BothFinal(run[k])
    requires DistinctNames(cfg.initiator.capabilities) && DistinctNames(cfg.responder.capabilities)
    ensures run[k].initiator.view.activeSet == run[k].responder.view.activeSet
  {
    hide FinalView, FinalSet, DistinctNames, IsRun;
    FinalNode(cfg, run, k, Initiator);
    FinalNode(cfg, run, k, Responder);
    FinalViewNames(cfg, Initiator);
    FinalViewNames(cfg, Responder);
    DistinctSameSequence(cfg.initiator, cfg.initiatorGate, cfg.responder, cfg.responderGate);
  }

  // ── Agreement on scopes ───────────────────────────────────────────────────

  function ScopeFrom(cfg: Config, side: Side, name: Str): ScopeParams {
    DeclaredScope(ManifestOf(cfg, side), name)
  }

  /** A side's first round for a name: its own declaration against the peer's as received. */
  lemma FirstRound(cfg: Config, side: Side, name: Str)
    ensures Reconciled(ScopeFrom(cfg, side, name), DeclaredScope(Seen(cfg, Other(side)), name))
            == Reconciled(ScopeFrom(cfg, side, name), ReceivedScope(ScopeFrom(cfg, Other(side), name)))
  {
    hide ReceivedManifest, ReceivedScope, Reconciled, DeclaredScope;
    ReceivedDeclaredScope(ManifestOf(cfg, Other(side)), name);
  }

  /** The scopes a side's CONFIRM carries, as the other side reads them. */
  lemma SeenReplyScope(cfg: Config, side: Side, name: Str)
    requires name in SeenReply(cfg, side).0
    ensures ParamOrDefault(SeenReply(cfg, side).1, name)
            == ReceivedScope(Reconciled(ScopeFrom(cfg, side, name), ReceivedScope(ScopeFrom(cfg, Other(side), name))))
  {
    hide Intersection, ReceivedManifest, ReceivedScope, Reconciled, DeclaredScope;
    FirstRound(cfg, side, name);
    var active := Intersection(ManifestOf(cfg, side), Seen(cfg, Other(side)), GateOf(cfg, side));
    assert name in active;
    assert name in ParamsFor(active, ManifestOf(cfg, side), Seen(cfg, Other(side)));
  }

  /** The scope a side holds for an agreed name after both rounds. */
  lemma FinalScope(cfg: Config, side: Side, name: Str)
    requires name in AgreedNames(cfg, side)
    ensures name in FinalView(cfg, side).acceptedParams
    ensures FinalView(cfg, side).acceptedParams[name]
            == HeldScope(ScopeFrom(cfg, side, name), ScopeFrom(cfg, Other(side), name))
  {
    hide Intersection, ReceivedManifest, ReceivedScope, Reconciled, DeclaredScope, Agreed, SeenReply;
    var local, other := ManifestOf(cfg, side), ManifestOf(cfg, Other(side));
    ReceivedIntersection(local, other, GateOf(cfg, side));
    SeenReplyNames(cfg, Other(side));
    var ours := Intersection(local, other, GateOf(cfg, side));
    AgreedMembers(ours, Intersection(other, local, GateOf(cfg, Other(side))));
    FirstRound(cfg, side, name);
    assert ParamOrDefault(ParamsFor(ours, local, Seen(cfg, Other(side))), name)
        == Reconciled(ScopeFrom(cfg, side, name), ReceivedScope(ScopeFrom(cfg, Other(side), name)));
    SeenReplyScope(cfg, Other(side), name);
  }

  lemma FinalScopes(cfg: Config, run: seq<Net>, k: nat, name: Str)
    requires IsRun(cfg, run) && k < |run| && BothFinal(run[k])
    requires name in run[k].initiator.view.activeSet
    ensures name in run[k].initiator.view.acceptedParams && name in run[k].responder.view.acceptedParams
    ensures run[k].initiator.view.acceptedParams[name]
            == HeldScope(ScopeFrom(cfg, Initiator, name), ScopeFrom(cfg, Responder, name))
    ensures run[k].responder.view.acceptedParams[name]
            == HeldScope(ScopeFrom(cfg, Responder, name), ScopeFrom(cfg, Initiator, name))
  {
    hide FinalView, FinalSet, IsRun, HeldScope, DeclaredScope;
    FinalNode(cfg, run, k, Initiator);
    FinalNode(cfg, run, k, Responder);
    FinalViewNames(cfg, Initiator);
    FinalViewNames(cfg, Responder);
    SameNames(cfg.initiator, cfg.initiatorGate, cfg.responder, cfg.responderGate);
    FinalScope(cfg, Initiator, name);
    FinalScope(cfg, Responder, name);
  }

  /**
   * Both sides end with a scope per agreed name, and always with equal limits. Numeric and
   * one-sided extensions are equal, and arrays equal as sets, exactly when what the two
   * declare under keys below 3 already is; the scopes are one and the same exactly when
   * the declarations agree under every key.
   */
  lemma ScopeAgreement(cfg: Config, run: seq<Net>, k: nat, name: Str)
    requires IsRun(cfg, run) && k < |run| && BothFinal(run[k])
    requires name in run[k].initiator.view.activeSet
    ensures name in run[k].initiator.view.acceptedParams && name in run[k].responder.view.acceptedParams
    ensures var p, q := run[k].initiator.view.acceptedParams[name], run[k].responder.view.acceptedParams[name];
            var x, y := ScopeFrom(cfg, Initiator, name), ScopeFrom(cfg, Responder, name);
            && p.rateLimit == q.rateLimit && p.ttl == q.ttl
            && (SharedView(p, q, x, y) <==> LowKeysShared(x.extensions, y.extensions))
            && (p == q <==> forall e: U64 :: AgreesAt(x.extensions, y.extensions, e))
  {
    hide IsRun, HeldScope, SharedView, LowKeysShared, AgreesAt, DeclaredScope, BothFinal;
    var x, y := ScopeFrom(cfg, Initiator, name), ScopeFrom(cfg, Responder, name);
    FinalScopes(cfg, run, k, name);
    HeldLimitsAgree(x, y);
    HeldSharedView(x, y);
    HeldScopesEqual(x, y);
  }

  /**
   * Whatever the declarations, each side holds the loosest limits within both as read off
   * the wire, and every key either may know of, shared values met.
   */
  lemma HeldOverRuns(cfg: Config, run: seq<Net>, k: nat, name: Str)
    requires IsRun(cfg, run) && k < |run| && BothFinal(run[k])
    requires name in run[k].initiator.view.activeSet
    ensures name in run[k].initiator.view.acceptedParams && name in run[k].responder.view.acceptedParams
    ensures var p, q := run[k].initiator.view.acceptedParams[name], run[k].responder.view.acceptedParams[name];
            var x, y := ScopeFrom(cfg, Initiator, name), ScopeFrom(cfg, Responder, name);
            && Loosest(p.rateLimit, ReceivedScope(x).rateLimit, ReceivedScope(y).rateLimit)
            && Loosest(p.ttl, ReceivedScope(x).ttl, ReceivedScope(y).ttl)
            && MergesExtensions(p.extensions, x.extensions, AboveLimits(y.extensions))
            && MergesExtensions(q.extensions, y.extensions, AboveLimits(x.extensions))
  {
    hide IsRun, HeldScope, Loosest, MergesExtensions, ReceivedScope, DeclaredScope, BothFinal;
    FinalScopes(cfg, run, k, name);
    HeldMeets(ScopeFrom(cfg, Initiator, name), ScopeFrom(cfg, Responder, name));
    HeldMeets(ScopeFrom(cfg, Responder, name), ScopeFrom(cfg, Initiator, name));
  }

  /** With extension keys of 3 and above each side holds its own reconciliation of the two declarations. */
  lemma WireSafeScopes(cfg: Config, run: seq<Net>, k: nat, name: Str)
    requires IsRun(cfg, run) && k < |run| && BothFinal(run[k])
    requires name in run[k].initiator.view.activeSet
    requires WireSafe(ScopeFrom(cfg, Initiator, name)) && WireSafe(ScopeFrom(cfg, Responder, name))
    ensures var x, y := ScopeFrom(cfg, Initiator, name), ScopeFrom(cfg, Responder, name);
            && name in run[k].initiator.view.acceptedParams
               && run[k].initiator.view.acceptedParams[name] == Reconciled(x, y)
               && Merges(run[k].initiator.view.acceptedParams[name], x, y)
            && name in run[k].responder.view.acceptedParams
               && run[k].responder.view.acceptedParams[name] == Reconciled(y, x)
               && Merges(run[k].responder.view.acceptedParams[name], y, x)
  {
    hide IsRun, HeldScope, DeclaredScope, BothFinal, Merges;
    HeldMerges(ScopeFrom(cfg, Initiator, name), ScopeFrom(cfg, Responder, name));
    HeldMerges(ScopeFrom(cfg, Responder, name), ScopeFrom(cfg, Initiator, name));
    FinalScopes(cfg, run, k, name);
    HeldIsReconciled(ScopeFrom(cfg, Initiator, name), ScopeFrom(cfg, Responder, name));
    HeldIsReconciled(ScopeFrom(cfg, Responder, name), ScopeFrom(cfg, Initiator, name));
  }

  // ── Progress ──────────────────────────────────────────────────────────────

  /** A side that stops before it is final takes no further step and leaves everything else as it is. */
  lemma CrashStops(cfg: Config, s: Net, side: Side)
    requires NodeOf(s, side).pc < 4
    ensures Step(cfg, Crash(s, side), side) == None
    ensures NodeOf(Crash(s, side), Other(side)) == NodeOf(s, Other(side))
    ensures InboxOf(Crash(s, side), side) == InboxOf(s, side)
    ensures InboxOf(Crash(s, side), Other(side)) == InboxOf(s, Other(side))
    ensures NodeOf(Crash(s, side), side).view == NodeOf(s, side).view
  {
  }

  /** All four messages fit the transport's frame cap. */
  predicate Fits(cfg: Config) {
    && Framed(Script(cfg, Initiator, 0)) && Framed(Script(cfg, Initiator, 1))
    && Framed(Script(cfg, Responder, 0)) && Framed(Script(cfg, Responder, 1))
  }

  lemma FitsScript(cfg: Config, side: Side, k: nat)
    requires Fits(cfg) && k < 2
    ensures Framed(Script(cfg, side, k)) && Allocatable(Script(cfg, side, k))
  {
    hide Script, Allocatable, Routable, ToPayload;
  }

  predicate Running(s: Net) {
    !s.initiator.stopped && !s.responder.stopped
  }

  lemma {:induction false} CleanRunKeepsInv(cfg: Config, run: seq<Net>, k: nat)
    requires IsCleanRun(cfg, run) && k < |run|
    ensures Inv(cfg, run[k])
  {
    hide Inv, Step;
    if k == 0 {
      InitInv(cfg);
    } else {
      CleanRunKeepsInv(cfg, run, k - 1);
      assert Step(cfg, run[k - 1], Initiator) == Some(run[k - 1 + 1])
             || Step(cfg, run[k - 1], Responder) == Some(run[k - 1 + 1]);
      NextKeepsInv(cfg, run[k - 1], run[k]);
    }
  }

  /** If everything fits, a step completes one action and never meets an unexpected message. */
  lemma CleanStep(cfg: Config, s: Net, side: Side)
    requires Inv(cfg, s) && Fits(cfg) && Running(s) && Step(cfg, s, side).Some?
    ensures var s' := Step(cfg, s, side).value;
            && Running(s')
            && NodeOf(s', side).pc == NodeOf(s, side).pc + 1
            && NodeOf(s', Other(side)) == NodeOf(s, Other(side))
  {
    hide Expected, NodeStep, InFlight, Script, Framed, Allocatable, Fits;
    var n, other := NodeOf(s, side), NodeOf(s, Other(side));
    RunningNode(cfg, s, side);
    if Sends(Plan(side, n.pc)) {
      FitsScript(cfg, side, SentBy(side, n.pc));
      SendKeeps(cfg, side, n, InboxOf(s, side), ReadBy(Other(side), other.pc));
    } else {
      RecvKeeps(cfg, side, n, SentBy(Other(side), other.pc), InboxOf(s, Other(side)));
      if ReadBy(side, n.pc) < 2 {
        FitsScript(cfg, Other(side), ReadBy(side, n.pc));
      }
    }
    ExpectedOnScript(cfg, side, n.pc + 1);
    ExpectedRuns(cfg, side, n.pc + 1);
  }

  lemma ExpectedRuns(cfg: Config, side: Side, pc: nat)
    ensures !Expected(cfg, side, pc).stopped
  {
  }

  /** A running side is stuck only when it waits for something the other side has not sent. */
  lemma StuckMeansWaiting(cfg: Config, s: Net, side: Side)
    requires Inv(cfg, s) && Running(s) && Step(cfg, s, side).None? && NodeOf(s, side).pc < 4
    ensures !Sends(Plan(side, NodeOf(s, side).pc))
    ensures ReadBy(side, NodeOf(s, side).pc) == SentBy(Other(side), NodeOf(s, Other(side)).pc)
  {
    hide Expected, NodeStep, InFlight, Script, Framed, Allocatable;
    var n, other := NodeOf(s, side), NodeOf(s, Other(side));
    if Sends(Plan(side, n.pc)) {
      SendKeeps(cfg, side, n, InboxOf(s, side), ReadBy(Other(side), other.pc));
    } else {
      RecvKeeps(cfg, side, n, SentBy(Other(side), other.pc), InboxOf(s, Other(side)));
    }
  }

  /** While both sides run and are not both final, one of them can move. */
  lemma NoDeadlock(cfg: Config, s: Net)
    requires Inv(cfg, s) && Running(s) && !BothFinal(s)
    ensures Step(cfg, s, Initiator).Some? || Step(cfg, s, Responder).Some?
  {
    hide Step, Expected, InFlight, Script, Framed, Allocatable;
    if Step(cfg, s, Initiator).None? && Step(cfg, s, Responder).None? {
      if s.initiator.pc < 4 {
        StuckMeansWaiting(cfg, s, Initiator);
      }
      if s.responder.pc < 4 {
        StuckMeansWaiting(cfg, s, Responder);
      }
      assert false;
    }
  }

  /** In a clean run of messages that fit, each step is one completed action: eight in all. */
  lemma {:induction false} CleanRunCounts(cfg: Config, run: seq<Net>, k: nat)
    requires IsCleanRun(cfg, run) && Fits(cfg) && k < |run|
    ensures Running(run[k])
    ensures run[k].initiator.pc + run[k].responder.pc == k && k <= 8
  {
    hide Step, Fits, Expected, ChannelInto;
    CleanRunKeepsInv(cfg, run, k);
    if k > 0 {
      CleanRunCounts(cfg, run, k - 1);
      CleanRunKeepsInv(cfg, run, k - 1);
      assert Step(cfg, run[k - 1], Initiator) == Some(run[k - 1 + 1])
             || Step(cfg, run[k - 1], Responder) == Some(run[k - 1 + 1]);
      if Step(cfg, run[k - 1], Initiator) == Some(run[k]) {
        CleanStep(cfg, run[k - 1], Initiator);
      } else {
        CleanStep(cfg, run[k - 1], Responder);
      }
    }
  }

  /** A clean run that cannot be extended. */
  predicate IsCompleteRun(cfg: Config, run: seq<Net>) {
    && IsCleanRun(cfg, run)
    && Step(cfg, run[|run| - 1], Initiator).None?
    && Step(cfg, run[|run| - 1], Responder).None?
  }

  lemma FinalMeansFits(cfg: Config, s: Net)
    requires Inv(cfg, s) && BothFinal(s)
    ensures Fits(cfg)
  {
    hide Script, Framed, Allocatable, Expected, InFlight;
  }

  /** Without faults the exchange completes on both sides exactly when all four messages fit a frame. */
  lemma Completion(cfg: Config, run: seq<Net>)
    requires IsCompleteRun(cfg, run)
    ensures BothFinal(run[|run| - 1]) <==> Fits(cfg)
    ensures Fits(cfg) ==> |run| == 9
  {
    hide Inv, Fits, Step;
    var last := run[|run| - 1];
    CleanRunKeepsInv(cfg, run, |run| - 1);
    if Fits(cfg) {
      CleanRunCounts(cfg, run, |run| - 1);
      if !BothFinal(last) {
        NoDeadlock(cfg, last);
      }
    }
    if BothFinal(last) {
      FinalMeansFits(cfg, last);
    }
  }

  /** With any faults, both sides finalize only if all four messages fit a frame. */
  lemma FinalOnlyIfFits(cfg: Config, run: seq<Net>, k: nat)
    requires IsRun(cfg, run) && k < |run| && BothFinal(run[k])
    ensures Fits(cfg)
  {
    hide Inv, Fits, Next;
    RunKeepsInv(cfg, run, k);
    FinalMeansFits(cfg, run[k]);
  }

  // ── The procedures follow the machine ─────────────────────────────────────

  /** A link on which the peer's two messages arrive and this side's two sends succeed. */
  predicate GoodLink(cfg: Config, side: Side, l: Link, tail: Octets) {
    l.incoming == InFlight(cfg, Other(side), 0, 2) + tail && l.sendsLeft >= 2
  }

  lemma ReceiveNext(cfg: Config, side: Side, from: nat, tail: Octets)
    requires from < 2 && Framed(Script(cfg, side, from))
    ensures Receive(InFlight(cfg, side, from, 2) + tail)
            == Got(ReceivedMessage(Script(cfg, side, from)), InFlight(cfg, side, from + 1, 2) + tail)
  {
    hide Script, Encode, Receive, ReceivedMessage, Routable, Allocatable, ToPayload;
    var first, rest := Encode(Script(cfg, side, from)), InFlight(cfg, side, from + 1, 2);
    assert (first + rest) + tail == first + (rest + tail);
    ReceiveSent(Script(cfg, side, from), rest + tail);
  }

  /** Run against the peer's two messages, each procedure ends in the machine's final view, having sent its own two. */
  lemma ExchangeMatchesMachine(cfg: Config, side: Side, l: Link, tail: Octets)
    requires Fits(cfg) && GoodLink(cfg, side, l, tail)
    ensures var o := Exchange(side, FRESH, ManifestOf(cfg, side), GateOf(cfg, side), l);
            o.ok && o.view == FinalView(cfg, side) && o.link.incoming == tail
            && o.link.outgoing == l.outgoing + InFlight(cfg, side, 0, 2)
  {
    hide Receive, ReceivedMessage, Encode, Allocatable, Framed, ConfirmFor, Finalized, Seen, Fits;
    var other := Other(side);
    FitsScript(cfg, side, 0);
    FitsScript(cfg, side, 1);
    FitsScript(cfg, other, 0);
    FitsScript(cfg, other, 1);
    ReceiveNext(cfg, other, 0, tail);
    ReceiveNext(cfg, other, 1, tail);
    ScriptRoutable(cfg, other, 0);
    ScriptRoutable(cfg, other, 1);
    assert InFlight(cfg, other, 2, 2) + tail == tail;
    var e0, e1 := Encode(Script(cfg, side, 0)), Encode(Script(cfg, side, 1));
    assert InFlight(cfg, side, 1, 2) == e1 + [] == e1;
    assert (l.outgoing + e0) + e1 == l.outgoing + (e0 + e1);
  }
}
