/** The exchange procedures against the protocol machine, on every connection (node/p2pcd/src/session.rs). */
module Procedures {
  import opened Prelude
  import opened Scope
  import opened Messages
  import opened Wire
  import opened Transport
  import opened Negotiation
  import opened Session
  import opened Protocol

  const OPENED := FRESH.(state := CapabilityExchange)

  /**
   * One node of the machine run alone on a connection until it is done, stopped, or waits
   * for bytes that never come. It stops at a send once the connection is lost.
   */
  function Drive(side: Side, local: Manifest, gate: Gate, n: Node, l: Link): (Node, Link)
    decreases 4 - n.pc
  {
    if n.stopped || n.pc >= 4 then (n, l)
    else if Sends(Plan(side, n.pc)) && l.sendsLeft == 0 then (n.(stopped := true), l)
    else
      match NodeStep(side, local, gate, n, l.incoming, l.outgoing)
      case Blocked => (n, l)
      case Moved(next, inbox, outbox) =>
        if next.stopped then (next, l.(incoming := inbox, outgoing := outbox))
        else
          StepAdvances(side, local, gate, n, l.incoming, l.outgoing);
          Drive(side, local, gate, next,
                Link(inbox, outbox, if Sends(Plan(side, n.pc)) then l.sendsLeft - 1 else l.sendsLeft))
  }

  lemma StepAdvances(side: Side, local: Manifest, gate: Gate, n: Node, inbox: Octets, outbox: Octets)
    requires NodeStep(side, local, gate, n, inbox, outbox).Moved?
    ensures var next := NodeStep(side, local, gate, n, inbox, outbox).node;
            next.stopped || next.pc > n.pc
  {
    hide Receive, Encode, Allocatable, ConfirmFor, Finalized;
  }

  /** What a procedure reports of where a node got to: the opening transitions come before the first action. */
  predicate Reports(o: Outcome, n: Node, l: Link) {
    && o.link.outgoing == l.outgoing
    && o.link.sendsLeft == l.sendsLeft
    && (o.ok <==> n.pc == 4 || n.view.state.Closed?)
    && o.view == if n.pc == 0 then OPENED else n.view
  }

  /** A send of a node that has not finished. */
  lemma DriveSend(side: Side, local: Manifest, gate: Gate, n: Node, l: Link, m: Message)
    requires !n.stopped && n.pc < 4
    requires || (Plan(side, n.pc) == SendOffer && m == Offer(local))
             || (Plan(side, n.pc) == SendConfirm && n.remote.Some? && m == ConfirmFor(local, n.remote.value, gate))
    ensures Drive(side, local, gate, n, l)
            == if SendOn(l, m).Some? then Drive(side, local, gate, Advance(n, local, gate), SendOn(l, m).value)
               else (n.(stopped := true), l)
  {
    hide Receive, Encode, Allocatable, ConfirmFor, Finalized;
  }

  predicate Offered(l: Link) {
    RecvOn(l).Some? && RecvOn(l).value.0.Offer?
  }

  predicate Confirmed(l: Link) {
    RecvOn(l).Some? && RecvOn(l).value.0.Confirm?
  }

  predicate ClosedOn(l: Link) {
    RecvOn(l).Some? && RecvOn(l).value.0.Close?
  }

  function ReplyOn(l: Link): (seq<Str>, Params)
    requires Confirmed(l)
  {
    (RecvOn(l).value.0.activeSet, ParamsOrEmpty(RecvOn(l).value.0.acceptedParams))
  }

  /** The node is where it was, if perhaps stopped, and has written nothing. */
  predicate StaysAt(end: (Node, Link), n: Node, l: Link) {
    end.0.(stopped := n.stopped) == n && end.1.(incoming := l.incoming) == l
  }

  lemma DriveOffer(side: Side, local: Manifest, gate: Gate, n: Node, l: Link)
    requires !n.stopped && n.pc < 4 && Plan(side, n.pc) == RecvOffer
    ensures Offered(l) ==>
              Drive(side, local, gate, n, l)
              == Drive(side, local, gate, Advance(n.(remote := Some(RecvOn(l).value.0.manifest)), local, gate),
                       RecvOn(l).value.1)
    ensures !Offered(l) ==> StaysAt(Drive(side, local, gate, n, l), n, l)
  {
    hide Receive, Encode, Allocatable, ConfirmFor, Finalized;
  }

  lemma DriveConfirm(side: Side, local: Manifest, gate: Gate, n: Node, l: Link)
    requires !n.stopped && n.pc < 4 && Plan(side, n.pc) == RecvConfirm && n.remote.Some?
    ensures Confirmed(l) ==>
              Drive(side, local, gate, n, l)
                  == Drive(side, local, gate, Advance(n.(reply := Some(ReplyOn(l))), local, gate), RecvOn(l).value.1)
    ensures ClosedOn(l) ==>
              Drive(side, local, gate, n, l)
              == (n.(stopped := true, view := ClosedBy(n.view, n.remote.value, RecvOn(l).value.0.reason)),
                  RecvOn(l).value.1)
    ensures !Confirmed(l) && !ClosedOn(l) ==> StaysAt(Drive(side, local, gate, n, l), n, l)
  {
    hide Receive, Encode, Allocatable, ConfirmFor, Finalized;
  }

  lemma DriveDone(side: Side, local: Manifest, gate: Gate, n: Node, l: Link)
    requires n.pc == 4
    ensures Drive(side, local, gate, n, l) == (n, l)
  {
  }

  lemma InitiatorReports(local: Manifest, gate: Gate, l: Link)
    ensures var (n, k) := Drive(Initiator, local, gate, START, l);
            Reports(InitiatorTalk(OPENED, local, gate, l), n, k)
  {
    hide Drive, SendOn, RecvOn, ConfirmFor, Finalized, AfterFailure;
    DriveSend(Initiator, local, gate, START, l, Offer(local));
    if SendOn(l, Offer(local)).Some? {
      var l1 := SendOn(l, Offer(local)).value;
      var n1 := Node(1, false, OPENED, None, None);
      DriveOffer(Initiator, local, gate, n1, l1);
      RecvKeepsSends(l1);
      match RecvOn(l1)
      case Some((Offer(remote), l2)) =>
        var n2 := Node(2, false, OPENED, Some(remote), None);
        var confirm := ConfirmFor(local, remote, gate);
        DriveSend(Initiator, local, gate, n2, l2, confirm);
        if SendOn(l2, confirm).Some? {
          var l3 := SendOn(l2, confirm).value;
          var n3 := Node(3, false, OPENED, Some(remote), None);
          LastTurn(Initiator, local, gate, n3, l3, remote);
        }
      case _ =>
    }
  }

  lemma RecvKeepsSends(l: Link)
    ensures RecvOn(l).Some? ==> RecvOn(l).value.1.outgoing == l.outgoing && RecvOn(l).value.1.sendsLeft == l.sendsLeft
    ensures AfterRecv(l).outgoing == l.outgoing && AfterRecv(l).sendsLeft == l.sendsLeft
  {
  }

  /** The initiator's last action. */
  lemma LastTurn(side: Side, local: Manifest, gate: Gate, n: Node, l: Link, remote: Manifest)
    requires side == Initiator && n == Node(3, false, OPENED, Some(remote), None)
    ensures var (end, k) := Drive(side, local, gate, n, l);
            Reports(match RecvOn(l)
                    case Some((Confirm(_, theirs, params), l4)) =>
                      Outcome(Finalized(OPENED, local, remote, gate, theirs, ParamsOrEmpty(params)), l4, true)
                    case Some((Close(_, reason), l4)) => Outcome(ClosedBy(OPENED, remote, reason), l4, true)
                    case _ => Outcome(OPENED, AfterRecv(l), false), end, k)
  {
    hide Drive, RecvOn, Finalized, AfterFailure;
    DriveConfirm(side, local, gate, n, l);
    RecvKeepsSends(l);
    match RecvOn(l)
    case Some((Confirm(_, theirs, params), l4)) =>
      var done := Advance(n.(reply := Some((theirs, ParamsOrEmpty(params)))), local, gate);
      DriveDone(side, local, gate, done, l4);
    case _ =>
  }

  lemma ResponderReports(local: Manifest, gate: Gate, l: Link)
    ensures var (n, k) := Drive(Responder, local, gate, START, l);
            Reports(ResponderTalk(OPENED, local, gate, l), n, k)
  {
    hide Drive, SendOn, RecvOn, ConfirmFor, Finalized, AfterFailure;
    DriveOffer(Responder, local, gate, START, l);
    RecvKeepsSends(l);
    match RecvOn(l)
    case Some((Offer(remote), l1)) =>
      var n1 := Node(1, false, OPENED, Some(remote), None);
      DriveSend(Responder, local, gate, n1, l1, Offer(local));
      if SendOn(l1, Offer(local)).Some? {
        var l2 := SendOn(l1, Offer(local)).value;
        ResponderConfirms(local, gate, Node(2, false, OPENED, Some(remote), None), l2, remote);
      }
    case _ =>
  }

  /** The responder's last two actions. */
  lemma ResponderConfirms(local: Manifest, gate: Gate, n: Node, l: Link, remote: Manifest)
    requires n == Node(2, false, OPENED, Some(remote), None)
    ensures var (end, k) := Drive(Responder, local, gate, n, l);
            Reports(match RecvOn(l)
                    case Some((Confirm(_, theirs, params), l3)) =>
                      (match SendOn(l3, ConfirmFor(local, remote, gate))
                       case None => Outcome(OPENED, l3, false)
                       case Some(l4) => Outcome(Finalized(OPENED, local, remote, gate, theirs, ParamsOrEmpty(params)),
                                                l4, true))
                    case Some((Close(_, reason), l3)) => Outcome(ClosedBy(OPENED, remote, reason), l3, true)
                    case _ => Outcome(OPENED, AfterRecv(l), false), end, k)
  {
    hide Drive, SendOn, RecvOn, ConfirmFor, Finalized, AfterFailure;
    DriveConfirm(Responder, local, gate, n, l);
    RecvKeepsSends(l);
    match RecvOn(l)
    case Some((Confirm(_, theirs, params), l3)) =>
      var n3 := Node(3, false, OPENED, Some(remote), Some((theirs, ParamsOrEmpty(params))));
      var confirm := ConfirmFor(local, remote, gate);
      DriveSend(Responder, local, gate, n3, l3, confirm);
      if SendOn(l3, confirm).Some? {
        DriveDone(Responder, local, gate, Advance(n3, local, gate), SendOn(l3, confirm).value);
      }
    case _ =>
  }

  /**
   * On every connection, whatever bytes arrive, wherever they break off and however many
   * sends succeed, a procedure stops where the machine's node stops: same view, same bytes
   * written, and success exactly when the node finalized or was closed by the peer.
   */
  lemma ExchangeFollowsMachine(side: Side, local: Manifest, gate: Gate, l: Link)
    ensures var (n, k) := Drive(side, local, gate, START, l);
            Reports(Exchange(side, FRESH, local, gate, l), n, k)
  {
    hide Drive, Reports, InitiatorTalk, ResponderTalk;
    InitiatorReports(local, gate, l);
    ResponderReports(local, gate, l);
  }
}
