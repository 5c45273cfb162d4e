/** The session state machine and its two exchanges (node/p2pcd/src/session.rs). */
module Session {
  import opened Prelude
  import opened Scope
  import opened Messages
  import opened Wire
  import opened Transport
  import opened Negotiation

  datatype SessionState =
    | PeerVisible
    | Handshake
    | CapabilityExchange
    | Active
    | NoneMatched
    | Denied
    | Closed(reason: CloseReason)

  predicate CanTransition(s: SessionState, next: SessionState) {
    match (s, next)
    case (PeerVisible, Handshake) => true
    case (Handshake, CapabilityExchange) => true
    case (CapabilityExchange, Active) => true
    case (CapabilityExchange, NoneMatched) => true
    case (CapabilityExchange, Denied) => true
    case (Closed(_), PeerVisible) => true
    case (Closed(_), _) => false
    case (_, Closed(_)) => true
    case _ => false
  }

  /** How far a session has come: visible, in a handshake, exchanging, settled. */
  function Stage(s: SessionState): nat {
    if s.PeerVisible? then 0 else if s.Handshake? then 1 else if s.CapabilityExchange? then 2 else 3
  }

  /** A session advances by one stage, closes from any stage while open, and reopens from the start. */
  lemma TransitionsAre(s: SessionState, next: SessionState)
    ensures CanTransition(s, next)
            <==> if s.Closed? then next == PeerVisible
                 else if next.Closed? then true
                 else Stage(next) == Stage(s) + 1
  {
  }

  /** The fields of a session that the exchange reads and writes. */
  datatype View = View(
    state: SessionState,
    remoteManifest: Option<Manifest>,
    activeSet: seq<Str>,
    acceptedParams: Params)

  const FRESH := View(PeerVisible, None, [], map[])

  /** A connection: bytes still to arrive before it ends, bytes written, and sends left before it is lost. */
  datatype Link = Link(incoming: Octets, outgoing: Octets, sendsLeft: nat)

  function SendOn(l: Link, m: Message): Option<Link> {
    if l.sendsLeft == 0 || !Allocatable(m) then None
    else Some(Link(l.incoming, l.outgoing + Encode(m), l.sendsLeft - 1))
  }

  function RecvOn(l: Link): Option<(Message, Link)> {
    match Receive(l.incoming)
    case Got(m, rest) => Some((m, l.(incoming := rest)))
    case _ => None
  }

  /** The connection after a receive, successful or not. */
  function AfterRecv(l: Link): Link {
    match RecvOn(l)
    case Some((_, rest)) => rest
    case None => l.(incoming := AfterFailure(l.incoming))
  }

  // ── The exchange as a function ────────────────────────────────────────────

  datatype Outcome = Outcome(view: View, link: Link, ok: bool)

  /** The CONFIRM a peer sends: no parameter map rather than an empty one. */
  function OurConfirm(local: Manifest, active: seq<Str>, params: Params): Message {
    Confirm(local.personalHash, active, if params == map[] then None else Some(params))
  }

  function ConfirmFor(local: Manifest, remote: Manifest, gate: Gate): Message {
    var active := Intersection(local, remote, gate);
    OurConfirm(local, active, ParamsFor(active, local, remote))
  }

  function ParamsOrEmpty(p: Option<Params>): Params {
    match p case Some(m) => m case None => map[]
  }

  /** The session after both CONFIRMs: the fields set, then the end state. */
  function Finalized(v: View, local: Manifest, remote: Manifest, gate: Gate, theirs: seq<Str>,
                     theirParams: Params): View {
    var ours := Intersection(local, remote, gate);
    var final := Agreed(ours, theirs);
    View(
      if final == [] then NoneMatched else Active,
      Some(remote),
      final,
      ConfirmedParams(final, ParamsFor(ours, local, remote), theirParams))
  }

  function ClosedBy(v: View, remote: Manifest, reason: CloseReason): View {
    v.(state := Closed(reason), remoteManifest := Some(remote))
  }

  /** Send OFFER, receive OFFER, send CONFIRM, receive CONFIRM or CLOSE. */
  function InitiatorTalk(v: View, local: Manifest, gate: Gate, l0: Link): Outcome {
    match SendOn(l0, Offer(local))
    case None => Outcome(v, l0, false)
    case Some(l1) =>
      match RecvOn(l1)
      case Some((Offer(remote), l2)) =>
        (match SendOn(l2, ConfirmFor(local, remote, gate))
         case None => Outcome(v, l2, false)
         case Some(l3) =>
           match RecvOn(l3)
           case Some((Confirm(_, theirs, params), l4)) =>
             Outcome(Finalized(v, local, remote, gate, theirs, ParamsOrEmpty(params)), l4, true)
           case Some((Close(_, reason), l4)) => Outcome(ClosedBy(v, remote, reason), l4, true)
           case _ => Outcome(v, AfterRecv(l3), false))
      case _ => Outcome(v, AfterRecv(l1), false)
  }

  /** Receive OFFER, send OFFER, receive CONFIRM or CLOSE, send CONFIRM. */
  function ResponderTalk(v: View, local: Manifest, gate: Gate, l0: Link): Outcome {
    match RecvOn(l0)
    case Some((Offer(remote), l1)) =>
      (match SendOn(l1, Offer(local))
       case None => Outcome(v, l1, false)
       case Some(l2) =>
         match RecvOn(l2)
         case Some((Confirm(_, theirs, params), l3)) =>
           (match SendOn(l3, ConfirmFor(local, remote, gate))
            case None => Outcome(v, l3, false)
            case Some(l4) => Outcome(Finalized(v, local, remote, gate, theirs, ParamsOrEmpty(params)), l4, true))
         case Some((Close(_, reason), l3)) => Outcome(ClosedBy(v, remote, reason), l3, true)
         case _ => Outcome(v, AfterRecv(l2), false))
    case _ => Outcome(v, AfterRecv(l0), false)
  }

  datatype Side = Initiator | Responder

  function Talk(side: Side, v: View, local: Manifest, gate: Gate, l: Link): Outcome {
    match side
    case Initiator => InitiatorTalk(v, local, gate, l)
    case Responder => ResponderTalk(v, local, gate, l)
  }

  /** The whole procedure: the two opening transitions, then the talk. */
  function Exchange(side: Side, v: View, local: Manifest, gate: Gate, l: Link): Outcome {
    if CanTransition(v.state, Handshake) then Talk(side, v.(state := CapabilityExchange), local, gate, l)
    else Outcome(v, l, false)
  }

  /** The states an exchange moves through. */
  function Moves(before: View, after: View): seq<SessionState> {
    if !CanTransition(before.state, Handshake) then []
    else [Handshake, CapabilityExchange] + (if after.state == CapabilityExchange then [] else [after.state])
  }

  // ── The exchange as the source runs it ────────────────────────────────────

  class P2pcdTransport {
    var incoming: Octets
    var outgoing: Octets
    var sendsLeft: nat

    function AsLink(): Link
      reads this
    {
      Link(incoming, outgoing, sendsLeft)
    }

    method Send(m: Message) returns (ok: bool)
      modifies this
      ensures ok <==> SendOn(old(AsLink()), m).Some?
      ensures AsLink() == if ok then SendOn(old(AsLink()), m).value else old(AsLink())
    {
      hide Allocatable, Encode;
      if sendsLeft == 0 || !Allocatable(m) {
        return false;
      }
      outgoing := outgoing + Encode(m);
      sendsLeft := sendsLeft - 1;
      return true;
    }

    method Recv() returns (r: Result<Message>)
      modifies this
      ensures AsLink() == AfterRecv(old(AsLink()))
      ensures match RecvOn(old(AsLink()))
              case Some((m, _)) => r == Ok(m)
              case None => r == Err
    {
      match Receive(incoming)
      case Got(m, rest) =>
        incoming := rest;
        r := Ok(m);
      case _ =>
        incoming := AfterFailure(incoming);
        r := Err;
    }
  }

  class Session {
    /** The peer this session is for, known before it says anything. */
    const remotePeerId: PeerId
    var state: SessionState
    const localManifest: Manifest
    var remoteManifest: Option<Manifest>
    var activeSet: seq<Str>
    var acceptedParams: Params
    const transport: P2pcdTransport
    /** Every state entered, in order. */
    ghost var trace: seq<SessionState>

    function AsView(): View
      reads this
    {
      View(state, remoteManifest, activeSet, acceptedParams)
    }

    constructor (peer: PeerId, local: Manifest, connection: P2pcdTransport)
      ensures AsView() == FRESH && trace == []
      ensures remotePeerId == peer && localManifest == local && transport == connection
    {
      remotePeerId, localManifest, transport := peer, local, connection;
      state, remoteManifest, activeSet, acceptedParams := PeerVisible, None, [], map[];
      trace := [];
    }

    method Transition(next: SessionState) returns (ok: bool)
      modifies this
      ensures ok <==> CanTransition(old(state), next)
      ensures AsView() == if ok then old(AsView()).(state := next) else old(AsView())
      ensures trace == old(trace) + if ok then [next] else []
    {
      if !CanTransition(state, next) {
        return false;
      }
      state := next;
      trace := trace + [next];
      return true;
    }

    /** The fields are set even where the transition is then refused. */
    method Finalize(final: seq<Str>, params: Params) returns (ok: bool)
      modifies this
      ensures var end := if final == [] then NoneMatched else Active;
              && (ok <==> CanTransition(old(state), end))
              && AsView() == View(if ok then end else old(state), old(remoteManifest), final, params)
              && trace == old(trace) + if ok then [end] else []
    {
      activeSet := final;
      acceptedParams := params;
      if final == [] {
        ok := Transition(NoneMatched);
      } else {
        ok := Transition(Active);
      }
    }

    method RunInitiatorExchange(gate: Gate) returns (ok: bool)
      modifies this, transport
      ensures var o := Exchange(Initiator, old(AsView()), localManifest, gate, old(transport.AsLink()));
              ok == o.ok && AsView() == o.view && transport.AsLink() == o.link
      ensures trace == old(trace) + Moves(old(AsView()), AsView())
    {
      hide SendOn, RecvOn, OurConfirm, ParamsOrEmpty, Intersection, ParamsFor, Agreed, ConfirmedParams;
      ok := Transition(Handshake);
      if !ok { return; }
      ok := Transition(CapabilityExchange);
      assert trace == old(trace) + [Handshake, CapabilityExchange];
      ok := transport.Send(Offer(localManifest));
      if !ok { return; }
      var offer := transport.Recv();
      if offer.Err? || !offer.value.Offer? { return false; }
      var remote := offer.value.manifest;
      var ours := ComputeIntersection(localManifest, remote, gate);
      var params := ReconcileParams(ours, localManifest, remote);
      ok := transport.Send(OurConfirm(localManifest, ours, params));
      if !ok { return; }
      var reply := transport.Recv();
      if reply.Err? || !(reply.value.Confirm? || reply.value.Close?) { return false; }
      remoteManifest := Some(remote);
      if reply.value.Close? {
        ok := Transition(Closed(reply.value.reason));
        return;
      }
      var final := Agreed(ours, reply.value.activeSet);
      var finalParams := ReconcileConfirmParams(final, params, ParamsOrEmpty(reply.value.acceptedParams));
      ok := Finalize(final, finalParams);
    }

    method RunResponderExchange(gate: Gate) returns (ok: bool)
      modifies this, transport
      ensures var o := Exchange(Responder, old(AsView()), localManifest, gate, old(transport.AsLink()));
              ok == o.ok && AsView() == o.view && transport.AsLink() == o.link
      ensures trace == old(trace) + Moves(old(AsView()), AsView())
    {
      hide SendOn, RecvOn, OurConfirm, ParamsOrEmpty, Intersection, ParamsFor, Agreed, ConfirmedParams;
      ok := Transition(Handshake);
      if !ok { return; }
      ok := Transition(CapabilityExchange);
      assert trace == old(trace) + [Handshake, CapabilityExchange];
      var offer := transport.Recv();
      if offer.Err? || !offer.value.Offer? { return false; }
      var remote := offer.value.manifest;
      ok := transport.Send(Offer(localManifest));
      if !ok { return; }
      var reply := transport.Recv();
      if reply.Err? || !(reply.value.Confirm? || reply.value.Close?) { return false; }
      if reply.value.Close? {
        remoteManifest := Some(remote);
        ok := Transition(Closed(reply.value.reason));
        return;
      }
      var ours := ComputeIntersection(localManifest, remote, gate);
      var params := ReconcileParams(ours, localManifest, remote);
      ok := transport.Send(OurConfirm(localManifest, ours, params));
      if !ok { return; }
      var final := Agreed(ours, reply.value.activeSet);
      var finalParams := ReconcileConfirmParams(final, params, ParamsOrEmpty(reply.value.acceptedParams));
      remoteManifest := Some(remote);
      ok := Finalize(final, finalParams);
    }

    /** A best-effort CLOSE to the peer, then the transition. */
    method SendClose(reason: CloseReason) returns (ok: bool)
      modifies this, transport
      ensures ok <==> CanTransition(old(state), Closed(reason))
      ensures AsView() == if ok then old(AsView()).(state := Closed(reason)) else old(AsView())
      ensures trace == old(trace) + if ok then [Closed(reason)] else []
      ensures var sent := SendOn(old(transport.AsLink()), Close(localManifest.personalHash, reason));
              transport.AsLink() == if sent.Some? then sent.value else old(transport.AsLink())
    {
      var sent := transport.Send(Close(localManifest.personalHash, reason));
      ok := Transition(Closed(reason));
    }
  }

  // ── What an exchange writes, and how the remote ends one ──────────────────

  /**
   * An exchange that ends agreed has written the OFFER and a CONFIRM with the local hash,
   * the local intersection and a scope for each of its names, or no map when there is none.
   */
  lemma ExchangeWrites(side: Side, v: View, local: Manifest, gate: Gate, l: Link)
    ensures var o := Exchange(side, v, local, gate, l);
            o.ok && !o.view.state.Closed? ==>
              && o.view.remoteManifest.Some?
              && (var remote := o.view.remoteManifest.value;
                  var active := Intersection(local, remote, gate);
                  var scopes := if active == [] then None else Some(ParamsFor(active, local, remote));
                  o.link.outgoing
                  == l.outgoing + Encode(Offer(local)) + Encode(Confirm(local.personalHash, active, scopes)))
  {
    hide Encode, Allocatable, RecvOn, Intersection, ParamsFor, Finalized, AfterRecv;
    forall active, remote
      ensures OurConfirm(local, active, ParamsFor(active, local, remote))
              == Confirm(local.personalHash, active,
                         if active == [] then None else Some(ParamsFor(active, local, remote)))
    {
      ScopedOrNone(active, local, remote);
    }
    hide OurConfirm;
    RecvWritesNothing();
    forall view: View, remote: Manifest, theirs: seq<Str>, params: Params
      ensures var end := Finalized(view, local, remote, gate, theirs, params);
              end.remoteManifest == Some(remote) && !end.state.Closed?
    {
      FinalizedIsOpen(view, local, remote, gate, theirs, params);
    }
  }

  lemma FinalizedIsOpen(v: View, local: Manifest, remote: Manifest, gate: Gate, theirs: seq<Str>, params: Params)
    ensures var end := Finalized(v, local, remote, gate, theirs, params);
            end.remoteManifest == Some(remote) && !end.state.Closed?
  {
    hide Intersection, ParamsFor, Agreed, ConfirmedParams;
  }

  lemma ScopedOrNone(active: seq<Str>, local: Manifest, remote: Manifest)
    ensures ParamsFor(active, local, remote) == map[] <==> active == []
  {
    hide Reconciled;
    if active != [] {
      assert active[0] in ParamsFor(active, local, remote);
    }
  }

  lemma RecvWritesNothing()
    ensures forall l :: RecvOn(l).Some? ==> RecvOn(l).value.1.outgoing == l.outgoing
  {
  }

  /** An exchange that fails leaves the session exchanging with nothing recorded; one not begun changes nothing. */
  lemma FailedExchange(side: Side, v: View, local: Manifest, gate: Gate, l: Link)
    ensures var o := Exchange(side, v, local, gate, l);
            && (v.state != PeerVisible ==> o == Outcome(v, l, false))
            && (v.state == PeerVisible && !o.ok ==>
                  o.view == View(CapabilityExchange, v.remoteManifest, v.activeSet, v.acceptedParams))
            && (o.ok ==> v.state == PeerVisible && (o.view.state in {Active, NoneMatched} || o.view.state.Closed?))
  {
    hide SendOn, RecvOn, AfterRecv, ConfirmFor, Agreed, ConfirmedParams, Intersection, ParamsFor;
  }

  /** A CLOSE in place of the remote's CONFIRM ends the session with its reason and nothing agreed. */
  lemma InitiatorIsClosed(v: View, local: Manifest, gate: Gate, l: Link, remote: Manifest, heard: Link, end: Link,
                          hash: Octets, reason: CloseReason)
    requires v.state == PeerVisible && SendOn(l, Offer(local)).Some?
    requires RecvOn(SendOn(l, Offer(local)).value) == Some((Offer(remote), heard))
    requires SendOn(heard, ConfirmFor(local, remote, gate)).Some?
    requires RecvOn(SendOn(heard, ConfirmFor(local, remote, gate)).value) == Some((Close(hash, reason), end))
    ensures Exchange(Initiator, v, local, gate, l)
            == Outcome(View(Closed(reason), Some(remote), v.activeSet, v.acceptedParams), end, true)
  {
    hide SendOn, RecvOn, ConfirmFor;
  }

  lemma ResponderIsClosed(v: View, local: Manifest, gate: Gate, l: Link, remote: Manifest, heard: Link, end: Link,
                          hash: Octets, reason: CloseReason)
    requires v.state == PeerVisible && RecvOn(l) == Some((Offer(remote), heard))
    requires SendOn(heard, Offer(local)).Some?
    requires RecvOn(SendOn(heard, Offer(local)).value) == Some((Close(hash, reason), end))
    ensures Exchange(Responder, v, local, gate, l)
            == Outcome(View(Closed(reason), Some(remote), v.activeSet, v.acceptedParams), end, true)
  {
    hide SendOn, RecvOn, ConfirmFor;
  }

  // ── What one exchange guarantees, whatever the remote sends ────────────────

  /** What an agreed session holds; the gate has passed its names for the id the remote's own manifest claims. */
  ghost predicate Sound(v: View, local: Manifest, gate: Gate) {
    && v.remoteManifest.Some?
    && (forall n :: n in v.activeSet ==>
          && Compatible(local.capabilities, v.remoteManifest.value.capabilities, n)
          && Passes(gate, n, v.remoteManifest.value.peerId))
    && v.acceptedParams.Keys == (set n | n in v.activeSet)
    && (forall n :: n in v.activeSet ==> NeverLooser(v.acceptedParams[n], DeclaredScope(local, n)))
    && (v.state == Active <==> v.activeSet != [])
  }

  lemma FinalizedIsSound(v: View, local: Manifest, remote: Manifest, gate: Gate, theirs: seq<Str>, theirParams: Params)
    ensures Sound(Finalized(v, local, remote, gate, theirs, theirParams), local, gate)
  {
    hide Intersection, Agreed, Compatible, Passes, Reconciled, NeverLooser, DeclaredScope;
    var ours := Intersection(local, remote, gate);
    var final := Agreed(ours, theirs);
    AgreedMembers(ours, theirs);
    forall n | n in final
      ensures Compatible(local.capabilities, remote.capabilities, n) && Passes(gate, n, remote.peerId)
      ensures n in ParamsFor(ours, local, remote)
      ensures NeverLooser(ConfirmedParams(final, ParamsFor(ours, local, remote), theirParams)[n],
                          DeclaredScope(local, n))
    {
      IntersectionMember(local, remote, gate, n);
      var x, y := DeclaredScope(local, n), DeclaredScope(remote, n);
      NeverLooserRefl(x);
      ReconcileNeverLooser(x, x, y);
      ReconcileNeverLooser(x, Reconciled(x, y), ParamOrDefault(theirParams, n));
    }
  }

  lemma NeverLooserRefl(x: ScopeParams)
    ensures NeverLooser(x, x)
  {
  }

  /**
   * Whatever bytes the remote sends, a session that ends agreed holds only names both
   * manifests declare in matching roles and the local gate lets pass for the id the remote
   * claims, with no declared finite limit loosened.
   */
  lemma ExchangeIsSound(side: Side, v: View, local: Manifest, gate: Gate, l: Link)
    ensures var o := Exchange(side, v, local, gate, l);
            o.ok && (o.view.state == Active || o.view.state == NoneMatched) ==> Sound(o.view, local, gate)
  {
    hide Finalized, Sound, SendOn, RecvOn, ConfirmFor;
    forall remote, theirs, params
      ensures Sound(Finalized(v.(state := CapabilityExchange), local, remote, gate, theirs, params), local, gate)
    {
      FinalizedIsSound(v.(state := CapabilityExchange), local, remote, gate, theirs, params);
    }
  }
}
