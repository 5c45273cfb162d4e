/** What every run of transitions, exchanges and closes keeps (node/p2pcd/src/session.rs). */
module SessionRuns {
  import opened Prelude
  import opened Scope
  import opened Messages
  import opened Negotiation
  import opened Session

  datatype Op =
    | Step(next: SessionState)
    | Run(side: Side, gate: Gate, link: Link)
    | SendClose(reason: CloseReason)

  function Transitioned(v: View, next: SessionState): View {
    if CanTransition(v.state, next) then v.(state := next) else v
  }

  function Apply(v: View, local: Manifest, op: Op): View {
    match op
    case Step(next) => Transitioned(v, next)
    case Run(side, gate, link) => Exchange(side, v, local, gate, link).view
    case SendClose(reason) => Transitioned(v, Closed(reason))
  }

  /** The states an operation moves through. */
  function Visited(v: View, local: Manifest, op: Op): seq<SessionState> {
    match op
    case Step(next) => if CanTransition(v.state, next) then [next] else []
    case SendClose(reason) => if CanTransition(v.state, Closed(reason)) then [Closed(reason)] else []
    case Run(side, gate, link) => Moves(v, Apply(v, local, op))
  }

  function RunAll(v: View, local: Manifest, ops: seq<Op>): View
    decreases |ops|
  {
    if ops == [] then v else RunAll(Apply(v, local, ops[0]), local, ops[1..])
  }

  function History(v: View, local: Manifest, ops: seq<Op>): seq<SessionState>
    decreases |ops|
  {
    if ops == [] then [] else Visited(v, local, ops[0]) + History(Apply(v, local, ops[0]), local, ops[1..])
  }

  /** Each state follows from the one before, starting at `from` and ending at `to`. */
  predicate IsPath(from: SessionState, path: seq<SessionState>, to: SessionState)
    decreases |path|
  {
    if path == [] then from == to else CanTransition(from, path[0]) && IsPath(path[0], path[1..], to)
  }

  lemma {:induction false} PathsConnect(a: SessionState, p: seq<SessionState>, b: SessionState, q: seq<SessionState>,
                                        c: SessionState)
    requires IsPath(a, p, b) && IsPath(b, q, c)
    ensures IsPath(a, p + q, c)
    decreases |p|
  {
    if p == [] {
      assert p + q == q;
    } else {
      PathsConnect(p[0], p[1..], b, q, c);
      assert (p + q)[1..] == p[1..] + q;
    }
  }

  /** An exchange ends where it opened, or active, unmatched or closed: never denied. */
  lemma ExchangeEnds(side: Side, v: View, local: Manifest, gate: Gate, l: Link)
    requires CanTransition(v.state, Handshake)
    ensures var end := Exchange(side, v, local, gate, l).view.state;
            end == CapabilityExchange || end == Active || end == NoneMatched || end.Closed?
  {
    hide SendOn, RecvOn, Intersection, ParamsFor, Agreed, ConfirmedParams;
  }

  lemma VisitedIsPath(v: View, local: Manifest, op: Op)
    ensures IsPath(v.state, Visited(v, local, op), Apply(v, local, op).state)
    ensures Denied in Visited(v, local, op) ==> op == Step(Denied)
  {
    hide Exchange;
    if op.Run? && CanTransition(v.state, Handshake) {
      ExchangeEnds(op.side, v, local, op.gate, op.link);
      var end := Apply(v, local, op).state;
      var opening := [Handshake, CapabilityExchange];
      assert opening[1..] == [CapabilityExchange];
      assert IsPath(v.state, opening, CapabilityExchange);
      if end != CapabilityExchange {
        assert IsPath(CapabilityExchange, [end], end);
        PathsConnect(v.state, opening, CapabilityExchange, [end], end);
      } else {
        assert Visited(v, local, op) == opening;
      }
    } else if op.Run? {
      RefusedExchange(op.side, v, local, op.gate, op.link);
    }
  }

  lemma RefusedExchange(side: Side, v: View, local: Manifest, gate: Gate, l: Link)
    requires !CanTransition(v.state, Handshake)
    ensures Exchange(side, v, local, gate, l).view == v
  {
  }

  /** Over every run the states form a path in the allowed graph, and only a direct request reaches Denied. */
  lemma {:induction false} HistoryIsPath(v: View, local: Manifest, ops: seq<Op>)
    ensures IsPath(v.state, History(v, local, ops), RunAll(v, local, ops).state)
    ensures Denied in History(v, local, ops) ==> Step(Denied) in ops
    decreases |ops|
  {
    hide Visited, Apply;
    if ops != [] {
      var next := Apply(v, local, ops[0]);
      VisitedIsPath(v, local, ops[0]);
      HistoryIsPath(next, local, ops[1..]);
      PathsConnect(v.state, Visited(v, local, ops[0]), next.state, History(next, local, ops[1..]),
                   RunAll(v, local, ops).state);
    }
  }

  /** One operation on a session, its connection replaced before an exchange. */
  method RunOp(session: Session, op: Op) returns (ok: bool)
    modifies session, session.transport
    ensures session.AsView() == Apply(old(session.AsView()), session.localManifest, op)
    ensures session.trace == old(session.trace) + Visited(old(session.AsView()), session.localManifest, op)
  {
    hide Exchange, RecvOn, SendOn;
    match op
    case Step(next) => ok := session.Transition(next);
    case SendClose(reason) => ok := session.SendClose(reason);
    case Run(side, gate, link) =>
      var t := session.transport;
      t.incoming, t.outgoing, t.sendsLeft := link.incoming, link.outgoing, link.sendsLeft;
      if side == Initiator {
        ok := session.RunInitiatorExchange(gate);
      } else {
        ok := session.RunResponderExchange(gate);
      }
  }

  /** A session run through any operations: the states it enters are the path. */
  method RunSession(session: Session, ops: seq<Op>)
    modifies session, session.transport
    ensures session.AsView() == RunAll(old(session.AsView()), session.localManifest, ops)
    ensures session.trace == old(session.trace) + History(old(session.AsView()), session.localManifest, ops)
    ensures IsPath(old(session.state), session.trace[|old(session.trace)|..], session.state)
  {
    hide Apply, Visited, IsPath;
    var local := session.localManifest;
    ghost var start, before := session.AsView(), session.trace;
    ghost var entered: seq<SessionState> := [];
    for i := 0 to |ops|
      invariant session.trace == before + entered
      invariant RunAll(session.AsView(), local, ops[i..]) == RunAll(start, local, ops)
      invariant entered + History(session.AsView(), local, ops[i..]) == History(start, local, ops)
    {
      ghost var v := session.AsView();
      assert ops[i..][1..] == ops[i + 1..];
      var _ := RunOp(session, ops[i]);
      Associative(entered, Visited(v, local, ops[i]), History(session.AsView(), local, ops[i + 1..]));
      Associative(before, entered, Visited(v, local, ops[i]));
      entered := entered + Visited(v, local, ops[i]);
    }
    assert entered + [] == entered;
    assert session.trace[|before|..] == entered;
    HistoryIsPath(start, local, ops);
  }

  // ── Active sets ───────────────────────────────────────────────────────────

  ghost predicate HasAgreement(v: View) {
    v.activeSet != [] && v.acceptedParams.Keys == set n | n in v.activeSet
  }

  ghost predicate HasNothing(v: View) {
    v.activeSet == [] && v.acceptedParams == map[]
  }

  /** Active sessions have capabilities, each with its scope; unmatched ones have none. */
  ghost predicate Consistent(v: View) {
    && (v.state == Active ==> HasAgreement(v))
    && (v.state == NoneMatched ==> HasNothing(v))
  }

  lemma FinalizedIsConsistent(v: View, local: Manifest, remote: Manifest, gate: Gate, theirs: seq<Str>, params: Params)
    ensures Consistent(Finalized(v, local, remote, gate, theirs, params))
  {
    hide Intersection, ParamsFor, Agreed, Reconciled;
    var ours := Intersection(local, remote, gate);
    var final := Agreed(ours, theirs);
    var p := ConfirmedParams(final, ParamsFor(ours, local, remote), params);
    assert p.Keys == set n | n in final;
    assert final == [] ==> p == map[];
  }

  lemma ExchangeIsConsistent(side: Side, v: View, local: Manifest, gate: Gate, l: Link)
    requires Consistent(v)
    ensures Consistent(Exchange(side, v, local, gate, l).view)
  {
    hide Finalized, SendOn, RecvOn, ConfirmFor;
    var open := v.(state := CapabilityExchange);
    forall remote, theirs, params
      ensures Consistent(Finalized(open, local, remote, gate, theirs, params))
    {
      FinalizedIsConsistent(open, local, remote, gate, theirs, params);
    }
  }

  /** The parameters are those of the active set, whatever the state. */
  ghost predicate Matched(v: View) {
    v.acceptedParams.Keys == set n | n in v.activeSet
  }

  lemma ExchangeIsMatched(side: Side, v: View, local: Manifest, gate: Gate, l: Link)
    requires Matched(v)
    ensures Matched(Exchange(side, v, local, gate, l).view)
  {
    hide Finalized, SendOn, RecvOn, ConfirmFor;
    var open := v.(state := CapabilityExchange);
    forall remote, theirs, params
      ensures Matched(Finalized(open, local, remote, gate, theirs, params))
    {
      FinalizedIsMatched(open, local, remote, gate, theirs, params);
    }
  }

  lemma FinalizedIsMatched(v: View, local: Manifest, remote: Manifest, gate: Gate, theirs: seq<Str>, params: Params)
    ensures Matched(Finalized(v, local, remote, gate, theirs, params))
  {
    hide Intersection, ParamsFor, Agreed, Reconciled;
  }

  /** Over every run, direct transitions included, the parameters are those of the active set. */
  lemma {:induction false} RunsAreMatched(v: View, local: Manifest, ops: seq<Op>)
    requires Matched(v)
    ensures Matched(RunAll(v, local, ops))
    decreases |ops|
  {
    hide Exchange, Matched;
    if ops != [] {
      if ops[0].Run? {
        ExchangeIsMatched(ops[0].side, v, local, ops[0].gate, ops[0].link);
      } else {
        StateAlone(v, Apply(v, local, ops[0]));
      }
      RunsAreMatched(Apply(v, local, ops[0]), local, ops[1..]);
    }
  }

  lemma StateAlone(v: View, after: View)
    requires Matched(v) && after.(state := v.state) == v
    ensures Matched(after)
  {
  }

  /** The direct transitions that end a session against its active set. */
  predicate Contradicts(v: View, next: SessionState) {
    v.state == CapabilityExchange
        && ((next == Active && v.activeSet == []) || (next == NoneMatched && v.activeSet != []))
  }

  /**
   * After any run on a new session, a direct transition keeps a consistent session consistent
   * exactly when it does not end the exchange against the active set then held.
   */
  lemma StepConsistent(local: Manifest, ops: seq<Op>, next: SessionState)
    requires Consistent(RunAll(FRESH, local, ops))
    ensures Consistent(RunAll(FRESH, local, ops + [Step(next)])) <==> !Contradicts(RunAll(FRESH, local, ops), next)
  {
    RunsAreMatched(FRESH, local, ops);
    hide RunAll, Apply;
    RunSnoc(FRESH, local, ops, Step(next));
    TransitionConsistent(RunAll(FRESH, local, ops), next);
    ApplyStep(RunAll(FRESH, local, ops), local, next);
  }

  lemma ApplyStep(v: View, local: Manifest, next: SessionState)
    ensures Apply(v, local, Step(next)) == Transitioned(v, next)
  {
  }

  lemma TransitionConsistent(v: View, next: SessionState)
    requires Consistent(v) && Matched(v)
    ensures Consistent(Transitioned(v, next)) <==> !Contradicts(v, next)
  {
    if v.activeSet == [] {
      assert v.acceptedParams.Keys == {};
    }
  }

  lemma {:induction false} RunSnoc(v: View, local: Manifest, ops: seq<Op>, op: Op)
    ensures RunAll(v, local, ops + [op]) == Apply(RunAll(v, local, ops), local, op)
    decreases |ops|
  {
    hide Apply;
    if ops == [] {
      assert ops + [op] == [op] && [op][1..] == [];
    } else {
      assert (ops + [op])[1..] == ops[1..] + [op];
      RunSnoc(Apply(v, local, ops[0]), local, ops[1..], op);
    }
  }

  /** A direct transition can make a session active with nothing agreed; the exchange cannot. */
  lemma DirectActivation(local: Manifest)
    ensures var v := RunAll(FRESH, local, [Step(Handshake), Step(CapabilityExchange), Step(Active)]);
            v.state == Active && v.activeSet == [] && !Consistent(v)
  {
    var a := [Step(Handshake), Step(CapabilityExchange), Step(Active)];
    assert a[1..] == [Step(CapabilityExchange), Step(Active)] && a[1..][1..] == [Step(Active)];
    assert a[1..][1..][1..] == [];
    var v1 := Apply(FRESH, local, a[0]);
    var v2 := Apply(v1, local, a[1]);
    var v3 := Apply(v2, local, a[2]);
    assert RunAll(v2, local, [Step(Active)]) == v3;
    assert RunAll(v1, local, a[1..]) == v3;
  }

  lemma OpIsConsistent(v: View, local: Manifest, op: Op)
    requires Consistent(v)
    requires op.Step? ==> op.next != Active && op.next != NoneMatched
    ensures Consistent(Apply(v, local, op))
  {
    hide Exchange;
    if op.Run? {
      ExchangeIsConsistent(op.side, v, local, op.gate, op.link);
    }
  }

  /** Over every run whose Active and None states come from exchanges, the session stays consistent. */
  lemma {:induction false} RunsAreConsistent(v: View, local: Manifest, ops: seq<Op>)
    requires Consistent(v)
    requires forall op :: op in ops && op.Step? ==> op.next != Active && op.next != NoneMatched
    ensures Consistent(RunAll(v, local, ops))
    decreases |ops|
  {
    hide Consistent, Apply;
    if ops != [] {
      assert ops[0] in ops;
      OpIsConsistent(v, local, ops[0]);
      RunsAreConsistent(Apply(v, local, ops[0]), local, ops[1..]);
    }
  }
}
