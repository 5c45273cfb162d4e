/** The WireGuard reachability monitor (`WgPeerMonitor::run` in node/daemon/src/wireguard.rs). */
module Monitor {
  import opened Prelude

  datatype Peer = Peer(publicKey: PeerId, latestHandshake: U64)

  datatype Event =
    | PeerVisible(id: PeerId)
    | PeerUnreachable(id: PeerId)
    | PeerRemoved(id: PeerId)

  const HANDSHAKE_TIMEOUT_SECS := 180

  /** `now.saturating_sub(latest_handshake)` below the timeout, after at least one handshake. */
  predicate IsFresh(p: Peer, now: U64) {
    p.latestHandshake > 0 && (if now >= p.latestHandshake then now - p.latestHandshake else 0) < HANDSHAKE_TIMEOUT_SECS
  }

  // ── The one-line specification ────────────────────────────────────────────

  /** The verdict of the last line of a dump that names `id`; false when none does. */
  /** A peer is fresh for 180 seconds after its last handshake, and one that never had any is not. */
  lemma FreshMeans(p: Peer, now: U64)
    ensures IsFresh(p, now) <==> p.latestHandshake > 0 && now < p.latestHandshake + 180
  {
  }

  predicate FreshIn(dump: seq<Peer>, now: U64, id: PeerId) {
    dump != [] &&
    if dump[|dump| - 1].publicKey == id then IsFresh(dump[|dump| - 1], now)
    else FreshIn(dump[..|dump| - 1], now, id)
  }

  function Listed(dump: seq<Peer>): set<PeerId> {
    set i | 0 <= i < |dump| :: dump[i].publicKey
  }

  /** The peers a dump shows as reachable. */
  function FreshSet(dump: seq<Peer>, now: U64): set<PeerId> {
    set id | id in Listed(dump) && FreshIn(dump, now, id)
  }

  // ── Events as changes of a set ────────────────────────────────────────────

  /** The set after an event that reports a change; no event repeats what the set already says. */
  function Change(reachable: set<PeerId>, e: Event): Option<set<PeerId>> {
    match e
    case PeerVisible(id) => if id in reachable then None else Some(reachable + {id})
    case PeerUnreachable(id) => if id in reachable then Some(reachable - {id}) else None
    case PeerRemoved(id) => if id in reachable then Some(reachable - {id}) else None
  }

  /** Folding events over a set of peers. */
  function Replay(reachable: set<PeerId>, events: seq<Event>): Option<set<PeerId>> {
    if events == [] then
      Some(reachable)
    else
      match Replay(reachable, events[..|events| - 1])
      case Some(s) => Change(s, events[|events| - 1])
      case None => None
  }

  lemma {:induction false} ReplaySnoc(reachable: set<PeerId>, events: seq<Event>, e: Event)
    ensures Replay(reachable, events + [e])
            == match Replay(reachable, events) case Some(s) => Change(s, e) case None => None
  {
    assert (events + [e])[..|events + [e]| - 1] == events;
  }

  lemma {:induction false} ReplayAppend(reachable: set<PeerId>, a: seq<Event>, b: seq<Event>)
    ensures Replay(reachable, a + b) == match Replay(reachable, a) case Some(s) => Replay(s, b) case None => None
  {
    if b == [] {
      assert a + b == a;
    } else {
      var n := |b| - 1;
      ReplayAppend(reachable, a, b[..n]);
      assert a + b == (a + b[..n]) + [b[n]];
      ReplaySnoc(reachable, a + b[..n], b[n]);
    }
  }

  // ── Alternation ───────────────────────────────────────────────────────────

  /** The events about one peer, in order. */
  function EventsOf(events: seq<Event>, id: PeerId): seq<Event> {
    if events == [] then []
    else EventsOf(events[..|events| - 1], id) + (if events[|events| - 1].id == id then [events[|events| - 1]] else [])
  }

  /** Visible at even places, gone at odd ones. */
  predicate Alternates(events: seq<Event>) {
    forall i :: 0 <= i < |events| ==> (events[i].PeerVisible? <==> i % 2 == 0)
  }

  /**
   * In events that replay from the empty set, each peer's own events alternate, starting
   * with Visible, and the peer is reachable exactly after an odd number of them.
   */
  lemma {:induction false} ReplayAlternates(events: seq<Event>, id: PeerId)
    requires Replay({}, events).Some?
    ensures Alternates(EventsOf(events, id))
    ensures id in Replay({}, events).value <==> |EventsOf(events, id)| % 2 == 1
  {
    if events != [] {
      ReplayAlternates(events[..|events| - 1], id);
    }
  }

  // ── The poll loop ─────────────────────────────────────────────────────────

  class WgPeerMonitor {
    var lastHandshake: map<PeerId, U64>
    var reachable: set<PeerId>
    /** Everything sent on the event channel. */
    var events: seq<Event>

    constructor ()
      ensures lastHandshake == map[] && reachable == {} && events == []
    {
      lastHandshake, reachable, events := map[], {}, [];
    }

    /**
     * One dump line. Which events are sent and what becomes reachable depend on
     * freshness and the reachable set only: `lastHandshake` has no part in it.
     */
    method Observe(peer: Peer, now: U64)
      modifies this
      ensures reachable
              == if IsFresh(peer, now) then old(reachable) + {peer.publicKey}
                 else old(reachable) - {peer.publicKey}
      ensures events == old(events) +
                        if IsFresh(peer, now) && peer.publicKey !in old(reachable) then [PeerVisible(peer.publicKey)]
                        else if !IsFresh(peer, now) && peer.publicKey in old(reachable)
                        then [PeerUnreachable(peer.publicKey)]
                        else []
    {
      var id := peer.publicKey;
      var isFresh := IsFresh(peer, now);
      var previous := if id in lastHandshake then lastHandshake[id] else 0;
      var advanced := peer.latestHandshake > previous;
      if isFresh && (advanced || id !in reachable) {
        lastHandshake := lastHandshake[id := peer.latestHandshake];
        if id !in reachable {
          reachable := reachable + {id};
          events := events + [PeerVisible(id)];
        }
      } else if !isFresh && id in reachable {
        reachable := reachable - {id};
        events := events + [PeerUnreachable(id)];
      }
    }

    /** The lines of a dump in order. */
    method ObserveAll(dump: seq<Peer>, now: U64)
      modifies this
      ensures forall id :: id in reachable <==>
                if id in Listed(dump) then FreshIn(dump, now, id) else id in old(reachable)
      ensures |events| >= |old(events)| && events[..|old(events)|] == old(events)
      ensures Replay(old(reachable), events[|old(events)|..]) == Some(reachable)
    {
      ghost var sent: seq<Event> := [];
      for i := 0 to |dump|
        invariant events == old(events) + sent
        invariant Replay(old(reachable), sent) == Some(reachable)
        invariant forall id :: id in reachable <==>
                                 if id in Listed(dump[..i]) then FreshIn(dump[..i], now, id) else id in old(reachable)
      {
        ghost var before, held := events, reachable;
        ListedSnoc(dump, i, now);
        Observe(dump[i], now);
        if events != before {
          ReplaySnoc(old(reachable), sent, events[|before|]);
          sent := sent + [events[|before|]];
        } else {
          assert reachable == held;
        }
      }
      assert dump[..|dump|] == dump;
      assert events[|old(events)|..] == sent;
    }

    /** Peers that vanished from the dump, in the arbitrary order of a hash set. */
    method RemoveUnlisted(seen: set<PeerId>)
      modifies this
      ensures reachable == old(reachable) * seen
      ensures |events| >= |old(events)| && events[..|old(events)|] == old(events)
      ensures Replay(old(reachable), events[|old(events)|..]) == Some(reachable)
    {
      ghost var sent: seq<Event> := [];
      var removed := reachable - seen;
      while removed != {}
        invariant removed == reachable - seen
        invariant reachable * seen == old(reachable) * seen
        invariant events == old(events) + sent
        invariant Replay(old(reachable), sent) == Some(reachable)
        decreases removed
      {
        var id :| id in removed;
        removed := removed - {id};
        reachable := reachable - {id};
        lastHandshake := lastHandshake - {id};
        events := events + [PeerRemoved(id)];
        ReplaySnoc(old(reachable), sent, PeerRemoved(id));
        sent := sent + [PeerRemoved(id)];
      }
      assert forall id :: id in reachable && id !in seen ==> id in removed;
      assert reachable == reachable * seen;
      assert events[|old(events)|..] == sent;
    }

    /** One iteration of the loop; a failed dump changes nothing. */
    method Poll(dump: Option<seq<Peer>>, now: U64)
      modifies this
      ensures dump.Some? ==> reachable == FreshSet(dump.value, now)
      ensures dump.None? ==> reachable == old(reachable) && events == old(events)
      ensures |events| >= |old(events)| && events[..|old(events)|] == old(events)
      ensures Replay(old(reachable), events[|old(events)|..]) == Some(reachable)
    {
      if dump.None? {
        assert events[|old(events)|..] == [];
        return;
      }
      ObserveAll(dump.value, now);
      ghost var mid, middle := reachable, events;
      RemoveUnlisted(Listed(dump.value));
      assert reachable == FreshSet(dump.value, now);
      assert events[|old(events)|..] == middle[|old(events)|..] + events[|middle|..] by {
        assert events[..|middle|] == middle;
      }
      ReplayAppend(old(reachable), middle[|old(events)|..], events[|middle|..]);
    }
  }

  lemma ListedSnoc(dump: seq<Peer>, i: nat, now: U64)
    requires i < |dump|
    ensures Listed(dump[..i + 1]) == Listed(dump[..i]) + {dump[i].publicKey}
    ensures forall id: PeerId :: FreshIn(dump[..i + 1], now, id) <==>
                           if dump[i].publicKey == id then IsFresh(dump[i], now) else FreshIn(dump[..i], now, id)
  {
    var longer := dump[..i + 1];
    assert longer[|longer| - 1] == dump[i] && longer[..|longer| - 1] == dump[..i];
    forall id: PeerId
      ensures FreshIn(longer, now, id) <==>
                if dump[i].publicKey == id then IsFresh(dump[i], now) else FreshIn(dump[..i], now, id)
    {
      hide IsFresh;
    }
    forall id | id in Listed(dump[..i + 1])
      ensures id in Listed(dump[..i]) + {dump[i].publicKey}
    {
    }
    forall id | id in Listed(dump[..i]) + {dump[i].publicKey}
      ensures id in Listed(dump[..i + 1])
    {
      if id == dump[i].publicKey {
        assert dump[..i + 1][i].publicKey == id;
      } else {
        var k :| 0 <= k < i && dump[..i][k].publicKey == id;
        assert dump[..i + 1][k].publicKey == id;
      }
    }
  }

  /** The last line of a peer decides: it is reachable exactly for 180 seconds after the handshake there. */
  lemma FreshSetIs(dump: seq<Peer>, now: U64, k: nat)
    requires k < |dump| && forall j :: k < j < |dump| ==> dump[j].publicKey != dump[k].publicKey
    ensures dump[k].publicKey in FreshSet(dump, now)
            <==> dump[k].latestHandshake > 0 && now < dump[k].latestHandshake + 180
  {
    LastLineDecides(dump, now, k);
    FreshMeans(dump[k], now);
  }

  lemma {:induction false} LastLineDecides(dump: seq<Peer>, now: U64, k: nat)
    requires k < |dump| && forall j :: k < j < |dump| ==> dump[j].publicKey != dump[k].publicKey
    ensures FreshIn(dump, now, dump[k].publicKey) <==> IsFresh(dump[k], now)
  {
    if k < |dump| - 1 {
      LastLineDecides(dump[..|dump| - 1], now, k);
    }
  }

  /** Who is not in the dump is not reachable. */
  lemma UnlistedIsNot(dump: seq<Peer>, now: U64, id: PeerId)
    requires forall k :: 0 <= k < |dump| ==> dump[k].publicKey != id
    ensures id !in FreshSet(dump, now)
  {
  }

  /** With distinct keys, a peer is reachable exactly when its line is fresh. */
  lemma DistinctDump(dump: seq<Peer>, now: U64, k: nat)
    requires forall i, j :: 0 <= i < j < |dump| ==> dump[i].publicKey != dump[j].publicKey
    requires k < |dump|
    ensures dump[k].publicKey in FreshSet(dump, now)
            <==> dump[k].latestHandshake > 0 && now < dump[k].latestHandshake + 180
  {
    FreshSetIs(dump, now, k);
  }

  // ── Whole runs ────────────────────────────────────────────────────────────

  datatype Reading = Reading(dump: Option<seq<Peer>>, now: U64)

  /** What the last successful dump shows. */
  function LastSeen(readings: seq<Reading>): set<PeerId> {
    if readings == [] then {}
    else
      var r := readings[|readings| - 1];
      if r.dump.Some? then FreshSet(r.dump.value, r.now) else LastSeen(readings[..|readings| - 1])
  }

  /**
   * The monitor run over any sequence of readings: what it holds is what the last dump
   * shows, its events fold to exactly that, and each peer's events alternate.
   */
  method RunMonitor(readings: seq<Reading>) returns (reachable: set<PeerId>, events: seq<Event>)
    ensures reachable == LastSeen(readings)
    ensures Replay({}, events) == Some(reachable)
    ensures forall id :: Alternates(EventsOf(events, id))
  {
    var m := new WgPeerMonitor();
    for i := 0 to |readings|
      invariant m.reachable == LastSeen(readings[..i])
      invariant Replay({}, m.events) == Some(m.reachable)
    {
      assert readings[..i + 1][..i] == readings[..i];
      ghost var before, held := m.events, m.reachable;
      m.Poll(readings[i].dump, readings[i].now);
      ReplayAppend({}, before, m.events[|before|..]);
      assert before + m.events[|before|..] == m.events;
    }
    assert readings[..|readings|] == readings;
    reachable, events := m.reachable, m.events;
    forall id: PeerId
      ensures Alternates(EventsOf(events, id))
    {
      ReplayAlternates(events, id);
    }
  }
}
