/**
 * Whose permissions an agreed session rests on. The gate is asked about the peer id inside
 * the remote's own OFFER; the peer the session is for (`remote_peer_id` in
 * node/p2pcd/src/session.rs) is known apart from it and not compared with it.
 */
module Identity {
  import opened Prelude
  import opened Sorting
  import opened Scope
  import opened Messages
  import opened Cbor
  import opened Codec
  import opened Wire
  import opened Transport
  import opened Negotiation
  import opened Session

  /** Every active name passes the gate for `peer`. */
  predicate AllPass(v: View, gate: Gate, peer: PeerId) {
    forall n :: n in v.activeSet ==> Passes(gate, n, peer)
  }

  /** The exchange ended agreed, with a remote that claims to be `claimed`. */
  predicate AgreedWith(o: Outcome, claimed: PeerId) {
    && o.ok && (o.view.state == Active || o.view.state == NoneMatched)
    && o.view.remoteManifest.Some? && o.view.remoteManifest.value.peerId == claimed
  }

  /** Whatever the manifests and the bytes, an agreed session's names pass this gate for `peer`. */
  ghost predicate PassesUnder(gate: Gate, claimed: PeerId, peer: PeerId) {
    forall side, local, l ::
      AgreedWith(Exchange(side, FRESH, local, gate, l), claimed)
      ==> AllPass(Exchange(side, FRESH, local, gate, l).view, gate, peer)
  }

  /** `peer` may have everything `claimed` may. */
  ghost predicate NoMore(gate: Gate, claimed: PeerId, peer: PeerId) {
    forall n :: Passes(gate, n, claimed) ==> Passes(gate, n, peer)
  }

  /** The names short enough to put in a frame together with what else the messages hold. */
  const LONGEST := 1_000_000

  /**
   * For a fixed gate: the names always pass for the session's peer when that peer may have
   * everything the claimed id may, and every name, up to its length, that only the claimed id
   * may have is the active set of a connection that ends agreed.
   */
  lemma GateDecides(gate: Gate, claimed: PeerId, peer: PeerId)
    ensures NoMore(gate, claimed, peer) ==> PassesUnder(gate, claimed, peer)
    ensures forall n :: |n| <= LONGEST && Passes(gate, n, claimed) && !Passes(gate, n, peer) ==>
              var o := Exchange(Initiator, FRESH, Sample(peer, n), gate, LinkFrom(claimed, n));
              AgreedWith(o, claimed) && o.view.activeSet == [n] && !AllPass(o.view, gate, peer)
  {
    hide Exchange, Passes, LinkFrom, Sample;
    if NoMore(gate, claimed, peer) {
      forall side, local, l | AgreedWith(Exchange(side, FRESH, local, gate, l), claimed)
        ensures AllPass(Exchange(side, FRESH, local, gate, l).view, gate, peer)
      {
        ExchangeIsSound(side, FRESH, local, gate, l);
      }
    }
    forall n | |n| <= LONGEST && Passes(gate, n, claimed) && !Passes(gate, n, peer)
      ensures var o := Exchange(Initiator, FRESH, Sample(peer, n), gate, LinkFrom(claimed, n));
              AgreedWith(o, claimed) && o.view.activeSet == [n] && !AllPass(o.view, gate, peer)
    {
      ClaimedLink(claimed, peer, n, gate);
      assert n in [n];
    }
  }

  /**
   * The claim decides: names pass for the session's peer in every exchange under every gate
   * exactly when the OFFER claims that peer's id.
   */
  lemma ClaimDecides(claimed: PeerId, peer: PeerId)
    ensures (forall gate :: PassesUnder(gate, claimed, peer)) <==> claimed == peer
  {
    hide PassesUnder;
    if claimed == peer {
      forall gate: Gate
        ensures PassesUnder(gate, claimed, peer)
      {
        GateDecides(gate, claimed, peer);
      }
    } else {
      OnlyForParts(claimed, peer);
    }
  }

  /** Lets only `id` have anything. */
  function OnlyFor(id: PeerId): Gate {
    (n, p) => p == id
  }

  lemma OnlyForParts(claimed: PeerId, peer: PeerId)
    requires claimed != peer
    ensures !PassesUnder(OnlyFor(claimed), claimed, peer)
  {
    hide Exchange, LinkFrom, Sample;
    assert |HEARTBEAT| == 24;
    GateDecides(OnlyFor(claimed), claimed, peer);
    assert Passes(OnlyFor(claimed), [], claimed) && !Passes(OnlyFor(claimed), [], peer);
  }

  // ── A connection on which the two ids part ────────────────────────────────

  /** A mutual capability. */
  function Mutual(n: Str): Capability {
    Capability(n, Both, true, None, None)
  }

  /** A manifest with that capability alone. */
  function Sample(id: PeerId, n: Str): Manifest {
    Manifest(1, id, 1, [Mutual(n)], [], [])
  }

  function TheirConfirm(n: Str): Message {
    Confirm([], [n], None)
  }

  /** The OFFER and CONFIRM of a remote that claims to be `claimed`, and room for two sends. */
  function LinkFrom(claimed: PeerId, n: Str): Link {
    Link(Encode(Offer(Sample(claimed, n))) + Encode(TheirConfirm(n)), [], 2)
  }

  /** A session with `peer` ends active on any name, short enough, that the gate lets the claimed id have. */
  lemma ClaimedLink(claimed: PeerId, peer: PeerId, n: Str, gate: Gate)
    requires |n| <= LONGEST && Passes(gate, n, claimed)
    ensures var o := Exchange(Initiator, FRESH, Sample(peer, n), gate, LinkFrom(claimed, n));
            AgreedWith(o, claimed) && o.view.state == Active && o.view.activeSet == [n]
  {
    hide Encode, Receive, Allocatable, Routable, ToPayload, Intersection, Agreed, ConfirmFor, Exchange,
         ReceivedManifest, Passes, Framed, Finalized;
    var local, remote, l, theirs := Sample(peer, n), Sample(claimed, n), LinkFrom(claimed, n), TheirConfirm(n);
    OfferFits(peer, n);
    OfferFits(claimed, n);
    TheirConfirmFits(n);
    FramedIsSendable(Offer(remote));
    FramedIsSendable(theirs);
    ReceiveSent(Offer(remote), Encode(theirs));
    SampleReceived(claimed, n);
    ReceiveSent(theirs, []);
    assert Encode(theirs) + [] == Encode(theirs);
    SampleIntersection(peer, claimed, n, gate);
    OurConfirmFits(peer, claimed, n, gate);
    GoodInitiator(local, remote, gate, l, Encode(theirs), theirs, []);
    SampleFinal(peer, claimed, n, gate);
  }

  lemma FramedIsSendable(m: Message)
    requires Framed(m)
    ensures Routable(m) && Allocatable(m)
  {
  }

  lemma SampleFinal(peer: PeerId, claimed: PeerId, n: Str, gate: Gate)
    requires Intersection(Sample(peer, n), Sample(claimed, n), gate) == [n]
    ensures var before := FRESH.(state := CapabilityExchange);
            var v := Finalized(before, Sample(peer, n), Sample(claimed, n), gate, [n], map[]);
            v.state == Active && v.activeSet == [n] && v.remoteManifest == Some(Sample(claimed, n))
  {
    hide Intersection, Agreed, ParamsFor, ConfirmedParams;
    AgreedOnSample(n);
  }

  /** An initiator whose sends work and whose peer answers. */
  lemma GoodInitiator(local: Manifest, remote: Manifest, gate: Gate, l: Link, rest: Octets, reply: Message,
                      tail: Octets)
    requires l.sendsLeft == 2 && Allocatable(Offer(local)) && Allocatable(ConfirmFor(local, remote, gate))
    requires Receive(l.incoming) == Got(Offer(remote), rest) && reply.Confirm? && Receive(rest) == Got(reply, tail)
    ensures var o := Exchange(Initiator, FRESH, local, gate, l);
            var before := FRESH.(state := CapabilityExchange);
            && o.ok
            && o.view
               == Finalized(before, local, remote, gate, reply.activeSet, ParamsOrEmpty(reply.acceptedParams))
  {
    hide Encode, Receive, Allocatable, ConfirmFor, Finalized;
  }

  lemma SampleReceived(id: PeerId, n: Str)
    ensures ReceivedManifest(Sample(id, n)) == Sample(id, n)
  {
    var m := Sample(id, n);
    assert m.capabilities[1..] == [];
    assert SortCapabilities(m.capabilities) == m.capabilities;
    ReceivedManifestIsSame(m);
  }

  lemma SampleIntersection(a: PeerId, b: PeerId, n: Str, gate: Gate)
    requires Passes(gate, n, b)
    ensures Intersection(Sample(a, n), Sample(b, n), gate) == [n]
  {
    hide Passes;
    var cs := Sample(a, n).capabilities;
    assert cs[1..] == [];
    assert Pairs(Mutual(n), Sample(b, n).capabilities[0]);
    assert Activates(Mutual(n), Sample(b, n).capabilities, b, gate);
    assert Candidates(cs, Sample(b, n).capabilities, b, gate) == [n];
    assert [n][1..] == [];
  }

  lemma AgreedOnSample(n: Str)
    ensures Agreed([n], [n]) == [n]
  {
    assert [n][1..] == [];
    assert Keep([n], [n]) == [n];
  }

  // ── Sizes ─────────────────────────────────────────────────────────────────

  lemma HeadSize(major: nat, n: nat)
    requires major < 8
    ensures |Head(major, n)| <= 9
  {
  }

  /** Entries within `k` bytes, except that the `i`-th may take `large` more. */
  ghost predicate Sized(es: seq<Entry>, k: nat, i: nat, large: nat) {
    forall j :: 0 <= j < |es| ==> |EncodeEntry(es[j])| <= if j == i then k + large else k
  }

  lemma {:induction false} EntriesSize(es: seq<Entry>, k: nat, i: nat, large: nat)
    requires Sized(es, k, i, large)
    ensures |EncodeEntries(es)| <= |es| * k + if i < |es| then large else 0
  {
    hide EncodeEntry;
    if es != [] {
      var n := |es| - 1;
      var rest := es[1..];
      var next := if i == 0 then |es| else i - 1;
      assert Sized(rest, k, next, large) by {
        assert forall j :: 0 <= j < n ==> rest[j] == es[j + 1];
      }
      EntriesSize(rest, k, next, large);
      assert n * k + k == (n + 1) * k;
    }
  }

  lemma MapSize(es: seq<Entry>, k: nat, i: nat, large: nat)
    requires Sized(es, k, i, large)
    ensures |EncodeValue(Map(es))| <= 9 + |es| * k + large
  {
    hide EncodeEntry, Head;
    HeadSize(5, |es|);
    EntriesSize(es, k, i, large);
  }

  lemma SmallEntry(key: U64, v: Value, k: nat)
    requires |EncodeValue(v)| <= k
    ensures |EncodeEntry(Entry(Integer(key), v))| <= 9 + k
  {
    HeadSize(0, key);
  }

  lemma LeafSize(v: Value)
    requires v.Integer? || v.Bytes? || v.Text? || v.Bool?
    ensures |EncodeValue(v)| <= 9 + match v case Bytes(bs) => |bs| case Text(t) => |t| case _ => 0
  {
    hide Head;
    match v
    case Integer(i) => HeadSize(0, if i >= 0 then i else 0); HeadSize(1, if i >= 0 then 0 else -1 - i);
    case Bytes(bs) => HeadSize(2, |bs|);
    case Text(t) => HeadSize(3, |t|);
    case Bool(_) =>
  }

  lemma OneItemSize(v: Value)
    ensures |EncodeValue(Value.Array([v]))| <= 9 + |EncodeValue(v)|
  {
    HeadSize(4, 1);
    assert [v][1..] == [];
    assert EncodeItems([v]) == EncodeValue(v) + EncodeItems([]);
  }

  lemma MutualSize(n: Str)
    ensures |EncodeValue(CapToCbor(Mutual(n)))| <= 63 + |n|
  {
    hide EncodeValue, EncodeEntry;
    var es := CapEntries(Mutual(n));
    assert es == [Entry(Integer(1), Value.Text(n)), Entry(Integer(2), Integer(3)), Entry(Integer(3), Value.Bool(true))];
    LeafSize(Value.Text(n));
    LeafSize(Integer(3));
    LeafSize(Value.Bool(true));
    SmallEntry(1, Value.Text(n), 9 + |n|);
    SmallEntry(2, Integer(3), 9);
    SmallEntry(3, Value.Bool(true), 9);
    MapSize(es, 18, 0, |n|);
  }

  lemma SampleSize(id: PeerId, n: Str)
    ensures |EncodeValue(ManifestToCbor(Sample(id, n)))| <= 495 + |n|
  {
    hide EncodeValue, EncodeEntry, CapToCbor, SortCapabilities;
    var es := ManifestEntries(Sample(id, n));
    OneSorted(Mutual(n));
    MutualSize(n);
    OneItemSize(CapToCbor(Mutual(n)));
    LeafSize(Integer(1));
    LeafSize(Value.Bytes(id));
    LeafSize(Value.Bytes([]));
    LeafSize(Value.Text([]));
    SmallEntry(PROTOCOL_VERSION, Integer(1), 72);
    SmallEntry(PEER_ID, Value.Bytes(id), 72);
    SmallEntry(SEQUENCE_NUM, Integer(1), 72);
    SmallEntry(CAPABILITIES, Value.Array([CapToCbor(Mutual(n))]), 72 + |n|);
    SmallEntry(MANIFEST_HASH, Value.Bytes([]), 72);
    SmallEntry(HASH_ALGORITHM, Value.Text([]), 72);
    MapSize(es, 81, 3, |n|);
  }

  lemma OneSorted(c: Capability)
    ensures SortCapabilities([c]) == [c] && CapsToCbor([c]) == [CapToCbor(c)]
  {
    assert [c][1..] == [];
  }

  lemma OfferFits(id: PeerId, n: Str)
    requires |n| <= LONGEST
    ensures Allocatable(Offer(Sample(id, n))) && Framed(Offer(Sample(id, n)))
  {
    hide EncodeValue, EncodeEntry, ManifestToCbor;
    var m := Sample(id, n);
    SampleSize(id, n);
    ReparseIsIdentity(ManifestToCbor(m));
    LeafSize(Integer(1));
    SmallEntry(MESSAGE_TYPE, Integer(1), 495);
    SmallEntry(MANIFEST, ManifestToCbor(m), 495 + |n|);
    MapSize(MessageEntries(Offer(m)), 504, 1, |n|);
  }

  lemma TextsSize(n: Str)
    ensures TextsToCbor([n]) == [Value.Text(n)] && |EncodeValue(Value.Array([Value.Text(n)]))| <= 18 + |n|
  {
    hide EncodeValue;
    assert [n][1..] == [];
    LeafSize(Value.Text(n));
    OneItemSize(Value.Text(n));
  }

  lemma TheirConfirmFits(n: Str)
    requires |n| <= LONGEST
    ensures Allocatable(TheirConfirm(n)) && Framed(TheirConfirm(n))
  {
    hide EncodeValue, EncodeEntry, TextsToCbor;
    TextsSize(n);
    LeafSize(Integer(2));
    LeafSize(Value.Bytes([]));
    SmallEntry(MESSAGE_TYPE, Integer(2), 18);
    SmallEntry(PERSONAL_HASH, Value.Bytes([]), 18);
    SmallEntry(ACTIVE_SET, Value.Array([Value.Text(n)]), 18 + |n|);
    MapSize(MessageEntries(TheirConfirm(n)), 27, 2, |n|);
  }

  lemma SampleParams(a: PeerId, b: PeerId, n: Str)
    ensures ParamsFor([n], Sample(a, n), Sample(b, n)) == map[n := DEFAULT_SCOPE]
  {
    ReconcileIdempotent(DEFAULT_SCOPE);
  }

  lemma SampleParamsSize(n: Str)
    ensures |EncodeValue(Map(ParamsToCbor(map[n := DEFAULT_SCOPE])))| <= 27 + |n|
  {
    var p: Params := map[n := DEFAULT_SCOPE];
    var ns := NamesInOrder(p.Keys);
    assert p.Keys == {n};
    assert |ns| == 1 && ns[0] in ns;
    var es := ParamsToCbor(p);
    assert ScopeToCbor(DEFAULT_SCOPE) == Map([]);
    hide EncodeValue;
    assert es == [Entry(Value.Text(n), Map([]))];
    LeafSize(Value.Text(n));
    MapSize([], 0, 0, 0);
    MapSize(es, 18, 0, |n|);
  }

  lemma OurConfirmFits(peer: PeerId, claimed: PeerId, n: Str, gate: Gate)
    requires |n| <= LONGEST && Intersection(Sample(peer, n), Sample(claimed, n), gate) == [n]
    ensures Allocatable(ConfirmFor(Sample(peer, n), Sample(claimed, n), gate))
  {
    hide EncodeValue, EncodeEntry, TextsToCbor, ParamsToCbor, ParamsFor;
    var p: Params := map[n := DEFAULT_SCOPE];
    var k := 27 + |n|;
    SampleParams(peer, claimed, n);
    SampleParamsSize(n);
    TextsSize(n);
    LeafSize(Integer(2));
    LeafSize(Value.Bytes([]));
    SmallEntry(MESSAGE_TYPE, Integer(2), k);
    SmallEntry(PERSONAL_HASH, Value.Bytes([]), k);
    SmallEntry(ACTIVE_SET, Value.Array([Value.Text(n)]), k);
    SmallEntry(ACCEPTED_PARAMS, Map(ParamsToCbor(p)), k);
    var m := Confirm([], [n], Some(p));
    assert n in p && p != map[];
    assert ConfirmFor(Sample(peer, n), Sample(claimed, n), gate) == m;
    MapSize(MessageEntries(m), 9 + k, 0, 0);
  }
}
