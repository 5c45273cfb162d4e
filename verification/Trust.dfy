/** The permission database as the trust gate of a session (node/daemon/src/p2pcd/engine/mod.rs). */
module Trust {
  import opened Prelude
  import opened Access
  import opened AccessHistory
  import opened AccessRuns
  import opened Negotiation
  import Protocol
  import ProtocolResults

  // ── Over all runs of the database ─────────────────────────────────────────

  /** Whatever was done to a database, a peer is granted its tiers' capabilities and those of its custom groups. */
  lemma PermissionOverRuns(ops: seq<Op>, peer: Octets, capability: Str)
    ensures Granted(Run(ops), peer, capability)
            <==> || capability in DEFAULT_CAPS
                 || (InTier(Run(ops), peer, GROUP_FRIENDS) && capability in FRIENDS_CAPS)
                 || (InTier(Run(ops), peer, GROUP_TRUSTED) && capability in TRUSTED_CAPS)
                 || exists g: GroupId ::
                    !BuiltIn(g) && (peer, g) in Run(ops).memberships && Allowing(Run(ops), g, capability)
  {
    hide Inv, Granted, Allowing, InTier, Run, DEFAULT_CAPS, FRIENDS_CAPS, TRUSTED_CAPS;
    RunKeepsInv(ops);
    GrantedAre(Run(ops), peer, capability);
  }

  /** Default, friends, trusted: a peer of a higher tier is granted whatever one of a lower tier is. */
  lemma TiersNest(ops: seq<Op>, low: Octets, high: Octets, capability: Str)
    requires forall g :: (low, g) in Run(ops).memberships ==> BuiltIn(g)
    requires InTier(Run(ops), low, GROUP_FRIENDS) ==> InTier(Run(ops), high, GROUP_FRIENDS)
    requires InTier(Run(ops), low, GROUP_TRUSTED) ==> InTier(Run(ops), high, GROUP_TRUSTED)
    requires Granted(Run(ops), low, capability)
    ensures Granted(Run(ops), high, capability)
  {
    hide Granted, Allowing, InTier, Run, DEFAULT_CAPS, FRIENDS_CAPS, TRUSTED_CAPS;
    PermissionOverRuns(ops, low, capability);
    PermissionOverRuns(ops, high, capability);
  }

  /** More memberships never revoke anything, whatever the parent links look like. */
  lemma MembershipsNeverRevoke(t: Tables, u: Tables, peer: Octets, capability: Str)
    requires u.groups == t.groups && u.rules == t.rules && t.memberships <= u.memberships
    requires Granted(t, peer, capability)
    ensures Granted(u, peer, capability)
  {
    var g :| MemberGroup(t, peer, g) && Allowing(t, g, capability);
    var origin :| Belongs(t, peer, origin) && Reaches(t, origin, g);
    var path :| Chain(t, path) && path[0] == origin && path[|path| - 1] == g;
    assert Chain(u, path);
    assert Belongs(u, peer, origin) && Reaches(u, origin, g);
    assert MemberGroup(u, peer, g) && Allowing(u, g, capability);
  }

  /** Removing a peer from every group leaves it exactly the default tier. */
  lemma RemovedPeerKeepsDefault(ops: seq<Op>, peer: Octets, capability: Str)
    ensures Granted(Run(ops + [RemoveAll(peer)]), peer, capability) <==> capability in DEFAULT_CAPS
  {
    hide Inv, Granted, DEFAULT_CAPS, FRIENDS_CAPS, TRUSTED_CAPS, Seeded;
    var longer := ops + [RemoveAll(peer)];
    assert longer[..|longer| - 1] == ops;
    assert forall g :: (peer, g) !in Next(Run(ops), RemoveAll(peer)).memberships;
    RunKeepsInv(longer);
    GrantedAre(Run(longer), peer, capability);
  }

  /** For each peer, deleting a custom group is the same as leaving it. */
  lemma DeletingIsLeaving(ops: seq<Op>, id: GroupId, peer: Octets, capability: Str)
    requires !BuiltIn(id)
    ensures Granted(Next(Run(ops), Delete(id)), peer, capability)
            <==> Granted(Next(Run(ops), Remove(peer, id)), peer, capability)
  {
    hide Inv, Granted, DEFAULT_CAPS, FRIENDS_CAPS, TRUSTED_CAPS, Run;
    var t := Run(ops);
    RunKeepsInv(ops);
    NextKeepsInv(t, Delete(id));
    NextKeepsInv(t, Remove(peer, id));
    GrantedAre(Next(t, Delete(id)), peer, capability);
    GrantedAre(Next(t, Remove(peer, id)), peer, capability);
    CustomGroupsAreDeletable(t, id);
  }

  lemma CustomGroupsAreDeletable(t: Tables, id: GroupId)
    requires Inv(t) && !BuiltIn(id)
    ensures id in t.groups ==> !t.groups[id].builtIn
    ensures id !in t.groups ==> forall peer :: (peer, id) !in t.memberships
  {
    assert forall peer :: (peer, id) in t.memberships ==> (peer, id).1 in t.groups;
  }

  /** After replacing a custom group's rules, it allows exactly what the rows up to the first repeated name allow. */
  lemma ReplacedRules(ops: seq<Op>, id: GroupId, rows: seq<Rule>, capability: Str)
    requires id in Run(ops).groups && !BuiltIn(id)
    ensures var u := Next(Run(ops), Update(id, None, None, Some(rows)));
            var n := FitLength(WithoutGroup(Run(ops).rules, id), id, rows);
            && (n == |rows| <==> DistinctRows(rows))
            && (Allowing(u, id, capability) <==> Rule(capability, true) in rows[..n])
  {
    hide Inv, Run;
    var t := Run(ops);
    var kept := WithoutGroup(t.rules, id);
    RunKeepsInv(ops);
    CustomGroupsAreDeletable(t, id);
    AllRowsFit(kept, id, rows);
    assert forall c :: (id, c) !in kept by {
      assert forall c: Str :: (id, c).0 == id;
    }
    InsertedRows(kept, id, rows, id, capability);
    var n := FitLength(kept, id, rows);
    if i :| 0 <= i < n && rows[i].capability == capability {
      assert rows[..n][i] == rows[i];
    }
    if Rule(capability, true) in rows[..n] {
      var i :| 0 <= i < n && rows[i] == Rule(capability, true);
    }
  }

  // ── The gate of a session ─────────────────────────────────────────────────

  /** The trust gate asks the database. */
  ghost function DbGate(t: Tables): Gate {
    (capability, peer) => Granted(t, peer, capability)
  }

  /** The heartbeat's bypass of the gate grants nothing the database would refuse. */
  lemma PassesMeansGranted(ops: seq<Op>, name: Str, peer: PeerId)
    ensures Passes(DbGate(Run(ops)), name, peer) <==> Granted(Run(ops), peer, name)
  {
    assert DEFAULT_CAPS[0] == HEARTBEAT;
    hide Inv, Granted, FRIENDS_CAPS, TRUSTED_CAPS, Run, DEFAULT_CAPS;
    if name == HEARTBEAT {
      PermissionOverRuns(ops, peer, name);
    }
  }

  /**
   * Two nodes whose gates ask their own databases, each after any run of operations: in
   * every interleaving with any faults, once both have finalized, a capability is active
   * exactly when both manifests declare it in matching roles and each database grants it to
   * the id the other side's manifest claims.
   */
  lemma ActiveMeansGranted(cfg: Protocol.Config, a: seq<Op>, b: seq<Op>, run: seq<Protocol.Net>, k: nat, name: Str)
    requires cfg.initiatorGate == DbGate(Run(a)) && cfg.responderGate == DbGate(Run(b))
    requires Protocol.IsRun(cfg, run) && k < |run| && ProtocolResults.BothFinal(run[k])
    ensures name in run[k].initiator.view.activeSet
            <==> && Compatible(cfg.initiator.capabilities, cfg.responder.capabilities, name)
                 && Granted(Run(a), cfg.responder.peerId, name)
                 && Granted(Run(b), cfg.initiator.peerId, name)
  {
    hide Granted, Run, Compatible, Passes, Protocol.IsRun, DbGate;
    ProtocolResults.NamesAgreement(cfg, run, k);
    PassesMeansGranted(a, name, cfg.responder.peerId);
    PassesMeansGranted(b, name, cfg.initiator.peerId);
  }

  /**
   * The same from what the two users did and declared: active exactly when a declaration on
   * one side offers what one on the other wants and each node's operations entitle the id
   * the other side's manifest claims.
   */
  lemma ActiveMeansEntitled(cfg: Protocol.Config, a: seq<Op>, b: seq<Op>, run: seq<Protocol.Net>, k: nat, name: Str)
    requires cfg.initiatorGate == DbGate(Run(a)) && cfg.responderGate == DbGate(Run(b))
    requires Protocol.IsRun(cfg, run) && k < |run| && ProtocolResults.BothFinal(run[k])
    ensures name in run[k].initiator.view.activeSet
            <==> && (exists x, y ::
                       && x in cfg.initiator.capabilities && y in cfg.responder.capabilities
                       && x.name == name && Complementary(x, y))
                 && Entitled(a, cfg.responder.peerId, name)
                 && Entitled(b, cfg.initiator.peerId, name)
  {
    hide Granted, Run, Entitled, Compatible, Complementary, Protocol.IsRun, DbGate, ProtocolResults.BothFinal;
    ActiveMeansGranted(cfg, a, b, run, k, name);
    CompatibleByRoles(cfg.initiator.capabilities, cfg.responder.capabilities, name);
    PermissionIs(a, cfg.responder.peerId, name);
    PermissionIs(b, cfg.initiator.peerId, name);
  }

  /**
   * For any peer a side's session may be for: its database grants that peer every active
   * name exactly when it grants it each agreed name besides the claimed id. It always does
   * when the claim is true.
   */
  lemma ActiveForSessionPeer(cfg: Protocol.Config, a: seq<Op>, b: seq<Op>, run: seq<Protocol.Net>, k: nat, peer: PeerId)
    requires cfg.initiatorGate == DbGate(Run(a)) && cfg.responderGate == DbGate(Run(b))
    requires Protocol.IsRun(cfg, run) && k < |run| && ProtocolResults.BothFinal(run[k])
    ensures (forall n :: n in run[k].initiator.view.activeSet ==> Granted(Run(a), peer, n))
            <==> forall n :: && Compatible(cfg.initiator.capabilities, cfg.responder.capabilities, n)
                             && Granted(Run(a), cfg.responder.peerId, n) && Granted(Run(b), cfg.initiator.peerId, n)
                             ==> Granted(Run(a), peer, n)
    ensures (forall n :: n in run[k].responder.view.activeSet ==> Granted(Run(b), peer, n))
            <==> forall n :: && Compatible(cfg.initiator.capabilities, cfg.responder.capabilities, n)
                             && Granted(Run(a), cfg.responder.peerId, n) && Granted(Run(b), cfg.initiator.peerId, n)
                             ==> Granted(Run(b), peer, n)
    ensures peer == cfg.responder.peerId ==>
              forall n :: n in run[k].initiator.view.activeSet ==> Granted(Run(a), peer, n)
    ensures peer == cfg.initiator.peerId ==>
              forall n :: n in run[k].responder.view.activeSet ==> Granted(Run(b), peer, n)
  {
    hide Granted, Run, Compatible, Protocol.IsRun, DbGate, ProtocolResults.BothFinal;
    ProtocolResults.NamesAgreement(cfg, run, k);
    forall n: Str
      ensures n in run[k].initiator.view.activeSet
              <==> && Compatible(cfg.initiator.capabilities, cfg.responder.capabilities, n)
                   && Granted(Run(a), cfg.responder.peerId, n) && Granted(Run(b), cfg.initiator.peerId, n)
    {
      ActiveMeansGranted(cfg, a, b, run, k, n);
    }
  }

  /** When either manifest claims an id without memberships at the other node, only default-tier names become active. */
  lemma ClaimedStrangersGetDefault(cfg: Protocol.Config, a: seq<Op>, b: seq<Op>, run: seq<Protocol.Net>, k: nat,
                                   name: Str)
    requires cfg.initiatorGate == DbGate(Run(a)) && cfg.responderGate == DbGate(Run(b))
    requires Protocol.IsRun(cfg, run) && k < |run| && ProtocolResults.BothFinal(run[k])
    requires || (forall g :: (cfg.responder.peerId, g) !in Run(a).memberships)
             || (forall g :: (cfg.initiator.peerId, g) !in Run(b).memberships)
    requires name in run[k].initiator.view.activeSet
    ensures name in DEFAULT_CAPS
  {
    hide Granted, Run, Compatible, Protocol.IsRun, DbGate, DEFAULT_CAPS, FRIENDS_CAPS, TRUSTED_CAPS;
    ActiveMeansGranted(cfg, a, b, run, k, name);
    PermissionOverRuns(a, cfg.responder.peerId, name);
    PermissionOverRuns(b, cfg.initiator.peerId, name);
  }
}
