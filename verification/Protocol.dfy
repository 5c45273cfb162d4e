/**
 * An initiator and a responder exchanging bytes over two FIFO channels, in every
 * interleaving, with either side able to stop at any step (node/p2pcd/src/session.rs).
 */
module Protocol {
  import opened Prelude
  import opened Scope
  import opened Messages
  import opened Wire
  import opened Transport
  import opened Negotiation
  import opened Session

  // ── Endpoints ─────────────────────────────────────────────────────────────

  datatype Action = SendOffer | RecvOffer | SendConfirm | RecvConfirm

  /** The four actions of a side, in program order. */
  function Plan(side: Side, pc: nat): Action
    requires pc < 4
  {
    match side
    case Initiator =>
      if pc == 0 then SendOffer else if pc == 1 then RecvOffer else if pc == 2 then SendConfirm else RecvConfirm
    case Responder =>
      if pc == 0 then RecvOffer else if pc == 1 then SendOffer else if pc == 2 then RecvConfirm else SendConfirm
  }

  /** `stopped` covers errors, timeouts, lost connections and a CLOSE from the peer. */
  datatype Node = Node(
    pc: nat,
    stopped: bool,
    view: View,
    remote: Option<Manifest>,
    reply: Option<(seq<Str>, Params)>)

  const START := Node(0, false, FRESH, None, None)

  datatype Config = Config(initiator: Manifest, initiatorGate: Gate, responder: Manifest, responderGate: Gate)

  function Other(side: Side): Side {
    if side == Initiator then Responder else Initiator
  }

  function ManifestOf(cfg: Config, side: Side): Manifest {
    if side == Initiator then cfg.initiator else cfg.responder
  }

  function GateOf(cfg: Config, side: Side): Gate {
    if side == Initiator then cfg.initiatorGate else cfg.responderGate
  }

  // ── Steps ─────────────────────────────────────────────────────────────────

  /** The node after completing its current action: finalized once all four are done. */
  function Advance(n: Node, local: Manifest, gate: Gate): Node {
    var open := n.view.(state := CapabilityExchange);
    if n.pc == 3 && n.remote.Some? && n.reply.Some? then
      n.(pc := 4, view := Finalized(open, local, n.remote.value, gate, n.reply.value.0, n.reply.value.1))
    else
      n.(pc := n.pc + 1, view := open)
  }

  datatype Move = Blocked | Moved(node: Node, inbox: Octets, outbox: Octets)

  function Transmit(n: Node, local: Manifest, gate: Gate, m: Message, inbox: Octets, outbox: Octets): Move {
    if Allocatable(m) then Moved(Advance(n, local, gate), inbox, outbox + Encode(m))
    else Moved(n.(stopped := true), inbox, outbox)
  }

  /** One atomic action of a running node; a receive waits until a whole frame, or a bad one, has arrived. */
  function NodeStep(side: Side, local: Manifest, gate: Gate, n: Node, inbox: Octets, outbox: Octets): Move {
    if n.stopped || n.pc >= 4 then
      Blocked
    else
      match Plan(side, n.pc)
      case SendOffer => Transmit(n, local, gate, Offer(local), inbox, outbox)
      case SendConfirm =>
        if n.remote.None? then Blocked
        else Transmit(n, local, gate, ConfirmFor(local, n.remote.value, gate), inbox, outbox)
      case RecvOffer =>
        (match Receive(inbox)
         case Incomplete => Blocked
         case Got(Offer(m), rest) => Moved(Advance(n.(remote := Some(m)), local, gate), rest, outbox)
         case _ => Moved(n.(stopped := true), inbox, outbox))
      case RecvConfirm =>
        (match Receive(inbox)
         case Incomplete => Blocked
         case Got(Confirm(_, theirs, params), rest) =>
           Moved(Advance(n.(reply := Some((theirs, ParamsOrEmpty(params)))), local, gate), rest, outbox)
         case Got(Close(_, reason), rest) =>
           if n.remote.None? then Blocked
           else Moved(n.(stopped := true, view := ClosedBy(n.view, n.remote.value, reason)), rest, outbox)
         case _ => Moved(n.(stopped := true), inbox, outbox))
  }

  datatype Net = Net(initiator: Node, responder: Node, toInitiator: Octets, toResponder: Octets)

  const INIT := Net(START, START, [], [])

  function NodeOf(s: Net, side: Side): Node {
    if side == Initiator then s.initiator else s.responder
  }

  function InboxOf(s: Net, side: Side): Octets {
    if side == Initiator then s.toInitiator else s.toResponder
  }

  function Put(s: Net, side: Side, n: Node, inbox: Octets, outbox: Octets): Net {
    if side == Initiator then Net(n, s.responder, inbox, outbox) else Net(s.initiator, n, outbox, inbox)
  }

  function Step(cfg: Config, s: Net, side: Side): Option<Net> {
    match NodeStep(side, ManifestOf(cfg, side), GateOf(cfg, side), NodeOf(s, side), InboxOf(s, side),
                   InboxOf(s, Other(side)))
    case Blocked => None
    case Moved(n, inbox, outbox) => Some(Put(s, side, n, inbox, outbox))
  }

  /** An unfinished endpoint stops for good: a timeout, a lost connection, a local failure. */
  function Crash(s: Net, side: Side): Net {
    var n := NodeOf(s, side);
    Put(s, side, if n.pc < 4 then n.(stopped := true) else n, InboxOf(s, side), InboxOf(s, Other(side)))
  }

  predicate Next(cfg: Config, s: Net, s': Net) {
    || Step(cfg, s, Initiator) == Some(s')
    || Step(cfg, s, Responder) == Some(s')
    || s' == Crash(s, Initiator)
    || s' == Crash(s, Responder)
  }

  /** A run with any interleaving and any faults. */
  predicate IsRun(cfg: Config, run: seq<Net>) {
    && run != []
    && run[0] == INIT
    && forall k :: 0 <= k < |run| - 1 ==> Next(cfg, run[k], run[k + 1])
  }

  /** A run without faults. */
  predicate IsCleanRun(cfg: Config, run: seq<Net>) {
    && run != []
    && run[0] == INIT
    && forall k :: 0 <= k < |run| - 1 ==>
         Step(cfg, run[k], Initiator) == Some(run[k + 1]) || Step(cfg, run[k], Responder) == Some(run[k + 1])
  }

  // ── Where a program counter puts a node ───────────────────────────────────

  function SentBy(side: Side, pc: nat): (r: nat)
    ensures r <= 2
  {
    match side
    case Initiator => if pc == 0 then 0 else if pc <= 2 then 1 else 2
    case Responder => if pc <= 1 then 0 else if pc <= 3 then 1 else 2
  }

  function ReadBy(side: Side, pc: nat): (r: nat)
    ensures r <= 2
  {
    match side
    case Initiator => if pc <= 1 then 0 else if pc <= 3 then 1 else 2
    case Responder => if pc == 0 then 0 else if pc <= 2 then 1 else 2
  }

  /** The manifest of `side` as the other side reads it. */
  function Seen(cfg: Config, side: Side): Manifest {
    ReceivedManifest(ManifestOf(cfg, side))
  }

  /** The two messages `side` sends. */
  function Script(cfg: Config, side: Side, k: nat): Message
    requires k < 2
  {
    if k == 0 then Offer(ManifestOf(cfg, side))
    else ConfirmFor(ManifestOf(cfg, side), Seen(cfg, Other(side)), GateOf(cfg, side))
  }

  function InFlight(cfg: Config, side: Side, from: nat, to: nat): Octets
    requires from <= to <= 2
    decreases 2 - from
  {
    if from == to then [] else Encode(Script(cfg, side, from)) + InFlight(cfg, side, from + 1, to)
  }

  /** The CONFIRM of `side` as the other side reads it. */
  function SeenReply(cfg: Config, side: Side): (seq<Str>, Params) {
    var m := ReceivedMessage(Script(cfg, side, 1));
    if m.Confirm? then (m.activeSet, ParamsOrEmpty(m.acceptedParams)) else ([], map[])
  }

  function FinalView(cfg: Config, side: Side): View {
    Finalized(
      FRESH.(state := CapabilityExchange), ManifestOf(cfg, side), Seen(cfg, Other(side)), GateOf(cfg, side),
      SeenReply(cfg, Other(side)).0, SeenReply(cfg, Other(side)).1)
  }

  /** The node a running side is at program counter `pc`. */
  function Expected(cfg: Config, side: Side, pc: nat): Node {
    Node(
      pc,
      false,
      if pc == 0 then FRESH else if pc < 4 then FRESH.(state := CapabilityExchange) else FinalView(cfg, side),
      if ReadBy(side, pc) >= 1 then Some(Seen(cfg, Other(side))) else None,
      if ReadBy(side, pc) >= 2 then Some(SeenReply(cfg, Other(side))) else None)
  }

  // ── The invariant ─────────────────────────────────────────────────────────

  predicate OnScript(cfg: Config, side: Side, n: Node) {
    n.pc <= 4 && n.(stopped := false) == Expected(cfg, side, n.pc) && (n.pc == 4 ==> !n.stopped)
  }

  /** What is on its way to `side` is what the other side sent and `side` has not read; all it read fit a frame. */
  predicate ChannelInto(cfg: Config, s: Net, side: Side) {
    var read, sent := ReadBy(side, NodeOf(s, side).pc), SentBy(Other(side), NodeOf(s, Other(side)).pc);
    && read <= sent
    && InboxOf(s, side) == InFlight(cfg, Other(side), read, sent)
    && (read >= 1 ==> Framed(Script(cfg, Other(side), 0)))
    && (read >= 2 ==> Framed(Script(cfg, Other(side), 1)))
    && (sent >= 1 ==> Allocatable(Script(cfg, Other(side), 0)))
    && (sent >= 2 ==> Allocatable(Script(cfg, Other(side), 1)))
  }

  predicate Inv(cfg: Config, s: Net) {
    && OnScript(cfg, Initiator, s.initiator)
    && OnScript(cfg, Responder, s.responder)
    && ChannelInto(cfg, s, Initiator)
    && ChannelInto(cfg, s, Responder)
  }

  lemma ScriptRoutable(cfg: Config, side: Side, k: nat)
    requires k < 2
    ensures Routable(Script(cfg, side, k))
    ensures k == 0 ==> ReceivedMessage(Script(cfg, side, k)) == Offer(Seen(cfg, side))
    ensures k == 1 ==>
              && ReceivedMessage(Script(cfg, side, k)).Confirm?
              && SeenReply(cfg, side) == (ReceivedMessage(Script(cfg, side, k)).activeSet,
                                          ParamsOrEmpty(ReceivedMessage(Script(cfg, side, k)).acceptedParams))
  {
    hide ReceivedManifest, ReceivedParams, Intersection, ParamsFor;
  }

  /** A receive finds nothing yet, or the next scripted message, or a frame over the cap. */
  lemma {:induction false} ReceiveScripted(cfg: Config, side: Side, from: nat, to: nat)
    requires from <= to <= 2
    requires from < to ==> Allocatable(Script(cfg, side, from))
    ensures Receive(InFlight(cfg, side, from, to))
            == if from == to then Incomplete
               else if Framed(Script(cfg, side, from))
                 then Got(ReceivedMessage(Script(cfg, side, from)), InFlight(cfg, side, from + 1, to))
                 else Bad
  {
    hide Script, Encode, ReceivedMessage, Receive, Allocatable, Routable, Framed;
    if from == to {
      ReceiveNothing();
    } else {
      ScriptRoutable(cfg, side, from);
      ReceiveSent(Script(cfg, side, from), InFlight(cfg, side, from + 1, to));
    }
  }

  lemma {:induction false} InFlightGrows(cfg: Config, side: Side, from: nat, to: nat)
    requires from <= to < 2
    ensures InFlight(cfg, side, from, to + 1) == InFlight(cfg, side, from, to) + Encode(Script(cfg, side, to))
    decreases 2 - from
  {
    hide Script, Encode;
    var last := Encode(Script(cfg, side, to));
    if from == to {
      assert last + [] == [] + last;
    } else {
      var first := Encode(Script(cfg, side, from));
      InFlightGrows(cfg, side, from + 1, to);
      assert first + (InFlight(cfg, side, from + 1, to) + last) == (first + InFlight(cfg, side, from + 1, to)) + last;
    }
  }

  // ── Every step keeps the invariant ────────────────────────────────────────

  predicate Sends(a: Action) {
    a == SendOffer || a == SendConfirm
  }

  /** Completing an action moves a node on the script to the next point of the script. */
  lemma AdvanceOnScript(cfg: Config, side: Side, n: Node)
    requires OnScript(cfg, side, n) && n.pc < 4 && !n.stopped
    ensures Sends(Plan(side, n.pc)) ==>
              Advance(n, ManifestOf(cfg, side), GateOf(cfg, side)) == Expected(cfg, side, n.pc + 1)
    ensures Plan(side, n.pc) == RecvOffer ==>
              Advance(n.(remote := Some(Seen(cfg, Other(side)))), ManifestOf(cfg, side), GateOf(cfg, side))
              == Expected(cfg, side, n.pc + 1)
    ensures Plan(side, n.pc) == RecvConfirm ==>
              Advance(n.(reply := Some(SeenReply(cfg, Other(side)))), ManifestOf(cfg, side), GateOf(cfg, side))
              == Expected(cfg, side, n.pc + 1)
  {
    hide Seen, SeenReply, Intersection, Agreed, ParamsFor, ConfirmedParams;
  }

  lemma SendKeeps(cfg: Config, side: Side, n: Node, inbox: Octets, unread: nat)
    requires OnScript(cfg, side, n) && n.pc < 4 && !n.stopped && Sends(Plan(side, n.pc))
    requires unread <= SentBy(side, n.pc)
    ensures SentBy(side, n.pc + 1) == SentBy(side, n.pc) + 1 && ReadBy(side, n.pc + 1) == ReadBy(side, n.pc)
    ensures NodeStep(side, ManifestOf(cfg, side), GateOf(cfg, side), n, inbox,
                     InFlight(cfg, side, unread, SentBy(side, n.pc)))
            == if Allocatable(Script(cfg, side, SentBy(side, n.pc)))
               then Moved(Expected(cfg, side, n.pc + 1), inbox, InFlight(cfg, side, unread, SentBy(side, n.pc + 1)))
               else Moved(n.(stopped := true), inbox, InFlight(cfg, side, unread, SentBy(side, n.pc)))
  {
    hide Seen, SeenReply, Finalized, ConfirmFor, Advance, Allocatable, Encode, InFlight;
    AdvanceOnScript(cfg, side, n);
    InFlightGrows(cfg, side, unread, SentBy(side, n.pc));
  }

  lemma RecvKeeps(cfg: Config, side: Side, n: Node, sent: nat, outbox: Octets)
    requires OnScript(cfg, side, n) && n.pc < 4 && !n.stopped && !Sends(Plan(side, n.pc))
    requires ReadBy(side, n.pc) <= sent <= 2
    requires ReadBy(side, n.pc) < sent ==> Allocatable(Script(cfg, Other(side), ReadBy(side, n.pc)))
    ensures SentBy(side, n.pc + 1) == SentBy(side, n.pc) && ReadBy(side, n.pc + 1) == ReadBy(side, n.pc) + 1
    ensures NodeStep(side, ManifestOf(cfg, side), GateOf(cfg, side), n,
                     InFlight(cfg, Other(side), ReadBy(side, n.pc), sent), outbox)
            == if ReadBy(side, n.pc) == sent then Blocked
               else if Framed(Script(cfg, Other(side), ReadBy(side, n.pc)))
                 then Moved(Expected(cfg, side, n.pc + 1), InFlight(cfg, Other(side), ReadBy(side, n.pc + 1), sent),
                            outbox)
                 else Moved(n.(stopped := true), InFlight(cfg, Other(side), ReadBy(side, n.pc), sent), outbox)
  {
    hide Seen, SeenReply, Finalized, ConfirmFor, Advance, Allocatable, Encode, InFlight, Framed, Receive,
         ReceivedMessage;
    AdvanceOnScript(cfg, side, n);
    ReceiveScripted(cfg, Other(side), ReadBy(side, n.pc), sent);
    ScriptRoutable(cfg, Other(side), 0);
    ScriptRoutable(cfg, Other(side), 1);
  }

  lemma StepKeepsInv(cfg: Config, s: Net, side: Side)
    requires Inv(cfg, s) && Step(cfg, s, side).Some?
    ensures Inv(cfg, Step(cfg, s, side).value)
  {
    hide Expected, NodeStep, InFlight, Script, Framed, Allocatable;
    var n, other := NodeOf(s, side), NodeOf(s, Other(side));
    RunningNode(cfg, s, side);
    if Sends(Plan(side, n.pc)) {
      SendKeeps(cfg, side, n, InboxOf(s, side), ReadBy(Other(side), other.pc));
    } else {
      RecvKeeps(cfg, side, n, SentBy(Other(side), other.pc), InboxOf(s, Other(side)));
    }
    ExpectedOnScript(cfg, side, n.pc + 1);
  }

  lemma RunningNode(cfg: Config, s: Net, side: Side)
    requires Step(cfg, s, side).Some?
    ensures !NodeOf(s, side).stopped && NodeOf(s, side).pc < 4
  {
  }

  lemma ExpectedOnScript(cfg: Config, side: Side, pc: nat)
    requires pc <= 4
    ensures OnScript(cfg, side, Expected(cfg, side, pc)) && Expected(cfg, side, pc).pc == pc
  {
  }

  lemma CrashKeepsInv(cfg: Config, s: Net, side: Side)
    requires Inv(cfg, s)
    ensures Inv(cfg, Crash(s, side))
  {
    hide Expected, InFlight, Script, Framed, Allocatable;
  }

  lemma NextKeepsInv(cfg: Config, s: Net, s': Net)
    requires Inv(cfg, s) && Next(cfg, s, s')
    ensures Inv(cfg, s')
  {
    hide Inv, Step, Crash;
    if Step(cfg, s, Initiator) == Some(s') {
      StepKeepsInv(cfg, s, Initiator);
    } else if Step(cfg, s, Responder) == Some(s') {
      StepKeepsInv(cfg, s, Responder);
    } else {
      CrashKeepsInv(cfg, s, Initiator);
      CrashKeepsInv(cfg, s, Responder);
    }
  }

  lemma InitInv(cfg: Config)
    ensures Inv(cfg, INIT)
  {
    hide Seen, SeenReply, FinalView;
  }

  lemma {:induction false} RunKeepsInv(cfg: Config, run: seq<Net>, k: nat)
    requires IsRun(cfg, run) && k < |run|
    ensures Inv(cfg, run[k])
  {
    hide Inv, Next;
    if k == 0 {
      InitInv(cfg);
    } else {
      RunKeepsInv(cfg, run, k - 1);
      NextKeepsInv(cfg, run[k - 1], run[k - 1 + 1]);
    }
  }
}
