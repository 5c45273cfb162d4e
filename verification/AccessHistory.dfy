/**
 * What is in the permission database after a run, told from the operations alone: which groups
 * stand, who belongs to them, which rules govern, and so what is granted.
 */
module AccessHistory {
  import opened Prelude
  import opened Access
  import opened AccessRuns

  /** `ops` without its last operation, and the tables either way. */
  lemma RunSnoc(ops: seq<Op>, op: Op)
    ensures Run(ops + [op]) == Next(Run(ops), op)
  {
    var longer := ops + [op];
    assert longer[|longer| - 1] == op && longer[..|longer| - 1] == ops;
  }

  // ── Groups ────────────────────────────────────────────────────────────────

  /** Created, and not deleted since. */
  predicate Stands(ops: seq<Op>, g: GroupId) {
    || BuiltIn(g)
    || exists k :: 0 <= k < |ops| && ops[k].Create? && ops[k].id == g
                   && forall j :: k < j < |ops| ==> ops[j] != Delete(g)
  }

  lemma StandsSnoc(ops: seq<Op>, op: Op, g: GroupId)
    ensures Stands(ops + [op], g)
            <==> BuiltIn(g) || (op.Create? && op.id == g) || (Stands(ops, g) && op != Delete(g))
  {
    var longer := ops + [op];
    assert longer[|ops|] == op;
    if !BuiltIn(g) && Stands(ops, g) && op != Delete(g) {
      var k :| 0 <= k < |ops| && ops[k].Create? && ops[k].id == g && forall j :: k < j < |ops| ==> ops[j] != Delete(g);
      assert longer[k] == ops[k];
    }
    if !BuiltIn(g) && Stands(longer, g) && !(op.Create? && op.id == g) {
      var k :| 0 <= k < |longer| && longer[k].Create? && longer[k].id == g
               && forall j :: k < j < |longer| ==> longer[j] != Delete(g);
      assert ops[k] == longer[k];
      assert forall j :: k < j < |ops| ==> ops[j] == longer[j];
    }
  }

  /** A step changes which groups there are only by creating and deleting custom ones. */
  lemma GroupsStep(t: Tables, op: Op, g: GroupId)
    requires Inv(t)
    ensures g in Next(t, op).groups
            <==> BuiltIn(g) || (op.Create? && op.id == g) || (g in t.groups && op != Delete(g))
  {
    hide DEFAULT_CAPS, FRIENDS_CAPS, TRUSTED_CAPS, Inserted, Seeded;
    TiersPresent(t);
    if op.Reopen? {
      SeedIdempotent(t);
    }
  }

  /** Over any run the groups are the built-in ones and those created and not deleted since. */
  lemma {:induction false} GroupsAre(ops: seq<Op>, g: GroupId)
    ensures g in Run(ops).groups <==> Stands(ops, g)
  {
    if ops == [] {
      RunKeepsInv([]);
      StandsAtFirst(g);
    } else {
      hide Inv, Next, Run, Stands;
      var before, op := ops[..|ops| - 1], ops[|ops| - 1];
      LastSplit(ops);
      GroupsAre(before, g);
      RunKeepsInv(before);
      RunSnoc(before, op);
      GroupsStep(Run(before), op, g);
      StandsSnoc(before, op, g);
    }
  }

  lemma StandsAtFirst(g: GroupId)
    ensures g in Run([]).groups <==> BuiltIn(g)
  {
    hide DEFAULT_CAPS, FRIENDS_CAPS, TRUSTED_CAPS, SeededRules;
  }

  // ── Memberships ───────────────────────────────────────────────────────────

  predicate Ends(op: Op, peer: Octets, g: GroupId) {
    op == Remove(peer, g) || op == RemoveAll(peer) || (op == Delete(g) && !BuiltIn(g))
  }

  /** Assigned while the group stood, and not removed since. */
  predicate Belonging(ops: seq<Op>, peer: Octets, g: GroupId) {
    exists k :: 0 <= k < |ops| && ops[k] == Assign(peer, g) && Stands(ops[..k], g)
                && forall j :: k < j < |ops| ==> !Ends(ops[j], peer, g)
  }

  lemma BelongingSnoc(ops: seq<Op>, op: Op, peer: Octets, g: GroupId)
    ensures Belonging(ops + [op], peer, g)
            <==> (op == Assign(peer, g) && Stands(ops, g)) || (Belonging(ops, peer, g) && !Ends(op, peer, g))
  {
    hide Stands, Ends;
    var longer := ops + [op];
    assert longer[|ops|] == op && longer[..|ops|] == ops;
    assert forall k :: 0 <= k < |ops| ==> longer[k] == ops[k] && longer[..k] == ops[..k];
    if Belonging(ops, peer, g) && !Ends(op, peer, g) {
      var k :| 0 <= k < |ops| && ops[k] == Assign(peer, g) && Stands(ops[..k], g)
               && forall j :: k < j < |ops| ==> !Ends(ops[j], peer, g);
      assert longer[k] == Assign(peer, g);
    }
    if op == Assign(peer, g) && Stands(ops, g) {
      assert longer[|ops|] == Assign(peer, g);
    }
  }

  lemma MembershipStep(t: Tables, op: Op, peer: Octets, g: GroupId)
    requires Inv(t)
    ensures (peer, g) in Next(t, op).memberships
            <==> (op == Assign(peer, g) && g in t.groups) || ((peer, g) in t.memberships && !Ends(op, peer, g))
  {
    hide DEFAULT_CAPS, FRIENDS_CAPS, TRUSTED_CAPS, Inserted, Seeded;
    TiersPresent(t);
    assert (peer, g) in t.memberships ==> (peer, g).1 in t.groups;
    if op.Reopen? {
      SeedIdempotent(t);
    }
  }

  /** Over any run a peer belongs to a group exactly when it was assigned to it and not removed since. */
  lemma {:induction false} MembershipsAre(ops: seq<Op>, peer: Octets, g: GroupId)
    ensures (peer, g) in Run(ops).memberships <==> Belonging(ops, peer, g)
  {
    if ops == [] {
      NobodyAtFirst();
    } else {
      hide Inv, Next, Run, Belonging, Ends, Stands;
      var before, op := ops[..|ops| - 1], ops[|ops| - 1];
      LastSplit(ops);
      MembershipsAre(before, peer, g);
      RunKeepsInv(before);
      RunSnoc(before, op);
      GroupsAre(before, g);
      MembershipStep(Run(before), op, peer, g);
      BelongingSnoc(before, op, peer, g);
    }
  }

  lemma NobodyAtFirst()
    ensures Run([]).memberships == {}
  {
    hide DEFAULT_CAPS, FRIENDS_CAPS, TRUSTED_CAPS, SeededRules, Upserted;
  }

  // ── Rules ─────────────────────────────────────────────────────────────────

  /** No name is repeated up to this row. */
  predicate UnrepeatedAt(rows: seq<Rule>, i: nat)
    requires i < |rows|
  {
    DistinctRows(rows[..i + 1])
  }

  /** The rows name the capability as allowed before any name is repeated. */
  predicate AllowsFirst(rows: seq<Rule>, capability: Str) {
    exists i :: 0 <= i < |rows| && rows[i] == Rule(capability, true) && UnrepeatedAt(rows, i)
  }

  /** The operation gives the group new rows: it creates it afresh or replaces its rules. */
  predicate SetsRows(before: seq<Op>, op: Op, g: GroupId) {
    || (op.Create? && op.id == g && !Stands(before, g))
    || (op.Update? && op.id == g && op.newRows.Some? && Stands(before, g))
  }

  function RowsOf(op: Op): seq<Rule> {
    if op.Create? then op.rows else if op.Update? && op.newRows.Some? then op.newRows.value else []
  }

  /** The rows last given to the group allow the capability. */
  predicate Governs(ops: seq<Op>, g: GroupId, capability: Str) {
    exists k :: 0 <= k < |ops| && SetsRows(ops[..k], ops[k], g) && AllowsFirst(RowsOf(ops[k]), capability)
                && forall j :: k < j < |ops| ==> !SetsRows(ops[..j], ops[j], g) && ops[j] != Delete(g)
  }

  lemma GovernsSnoc(ops: seq<Op>, op: Op, g: GroupId, capability: Str)
    ensures Governs(ops + [op], g, capability)
            <==> if SetsRows(ops, op, g) then AllowsFirst(RowsOf(op), capability)
                 else Governs(ops, g, capability) && op != Delete(g)
  {
    hide Stands, SetsRows, AllowsFirst, RowsOf;
    var longer := ops + [op];
    assert longer[|ops|] == op && longer[..|ops|] == ops;
    assert forall k :: 0 <= k < |ops| ==> longer[k] == ops[k] && longer[..k] == ops[..k];
    if !SetsRows(ops, op, g) && Governs(ops, g, capability) && op != Delete(g) {
      var k :| 0 <= k < |ops| && SetsRows(ops[..k], ops[k], g) && AllowsFirst(RowsOf(ops[k]), capability)
               && forall j :: k < j < |ops| ==> !SetsRows(ops[..j], ops[j], g) && ops[j] != Delete(g);
      assert SetsRows(longer[..k], longer[k], g);
    }
    if SetsRows(ops, op, g) && AllowsFirst(RowsOf(op), capability) {
      assert SetsRows(longer[..|ops|], longer[|ops|], g);
    }
  }

  /** Rows stored for a group without rules allow what they allow before the first repeated name. */
  lemma StoredAllow(rules: map<(GroupId, Str), bool>, g: GroupId, rows: seq<Rule>, capability: Str)
    requires forall c: Str :: (g, c) !in rules
    ensures var r := Inserted(rules, g, rows);
            ((g, capability) in r && r[(g, capability)]) <==> AllowsFirst(rows, capability)
  {
    hide Inserted, FitLength;
    var n := FitLength(rules, g, rows);
    InsertedRows(rules, g, rows, g, capability);
    FitIsDistinct(rules, g, rows);
    if i :| 0 <= i < |rows| && rows[i] == Rule(capability, true) && UnrepeatedAt(rows, i) {
      assert i < n;
    }
    if i :| 0 <= i < n && rows[i].capability == capability {
      assert rows[i] == Rule(capability, rows[i].allow);
      assert UnrepeatedAt(rows, i) by {
        assert forall k :: 0 <= k < i + 1 ==> rows[..i + 1][k] == rows[..n][k];
      }
      if j :| 0 <= j < |rows| && rows[j] == Rule(capability, true) && UnrepeatedAt(rows, j) {
        assert j < n;
      }
    }
  }

  /** The rows that fit are those before the first repeated name. */
  lemma {:induction false} FitIsDistinct(rules: map<(GroupId, Str), bool>, g: GroupId, rows: seq<Rule>)
    requires forall c: Str :: (g, c) !in rules
    ensures DistinctRows(rows[..FitLength(rules, g, rows)])
    ensures forall i :: 0 <= i < |rows| && UnrepeatedAt(rows, i) ==> i < FitLength(rules, g, rows)
  {
    var n := FitLength(rules, g, rows);
    FitOfPrefix(rules, g, rows, n);
    AllRowsFit(rules, g, rows[..n]);
    forall i | 0 <= i < |rows| && UnrepeatedAt(rows, i)
      ensures i < n
    {
      AllRowsFit(rules, g, rows[..i + 1]);
      FitOfPrefix(rules, g, rows, i + 1);
    }
  }

  /** How much of a prefix fits. */
  lemma {:induction false} FitOfPrefix(rules: map<(GroupId, Str), bool>, g: GroupId, rows: seq<Rule>, m: nat)
    requires m <= |rows|
    ensures FitLength(rules, g, rows[..m])
            == if m <= FitLength(rules, g, rows) then m else FitLength(rules, g, rows)
    decreases m
  {
    if m > 0 && (g, rows[0].capability) !in rules {
      FitOfPrefix(rules[(g, rows[0].capability) := rows[0].allow], g, rows[1..], m - 1);
      assert rows[..m][1..] == rows[1..][..m - 1];
    }
  }

  lemma NoRulesWithout(t: Tables, g: GroupId)
    requires Inv(t) && g !in t.groups
    ensures forall c: Str :: (g, c) !in t.rules
  {
    assert forall k :: k in t.rules ==> k.0 in t.groups;
    assert forall c: Str :: (g, c).0 == g;
  }

  lemma NoneLeft(rules: map<(GroupId, Str), bool>, g: GroupId)
    ensures forall c: Str :: (g, c) !in WithoutGroup(rules, g)
  {
    assert forall c: Str :: (g, c).0 == g;
  }

  lemma OthersKeep(rules: map<(GroupId, Str), bool>, h: GroupId, rows: seq<Rule>, g: GroupId, capability: Str)
    requires h != g
    ensures (g, capability) in Inserted(rules, h, rows) <==> (g, capability) in rules
    ensures (g, capability) in rules ==> Inserted(rules, h, rows)[(g, capability)] == rules[(g, capability)]
    ensures (g, capability) in WithoutGroup(rules, h) <==> (g, capability) in rules
    ensures (g, capability) in rules ==> WithoutGroup(rules, h)[(g, capability)] == rules[(g, capability)]
  {
    InsertedRows(rules, h, rows, g, capability);
    assert (g, capability).0 == g;
  }

  /** The step on the rules of one custom group, by what the operation does to it. */
  lemma RulesStep(ops: seq<Op>, op: Op, g: GroupId, capability: Str)
    requires !BuiltIn(g)
    ensures Allowing(Next(Run(ops), op), g, capability)
            <==> if SetsRows(ops, op, g) then AllowsFirst(RowsOf(op), capability)
                 else Allowing(Run(ops), g, capability) && op != Delete(g)
  {
    var t := Run(ops);
    RunKeepsInv(ops);
    GroupsAre(ops, g);
    hide Inv, Run, Stands, Inserted, WithoutGroup, AllowsFirst, Seeded, FitLength;
    match op
    case Create(id, name, description, rows) =>
      if id !in t.groups {
        CreateRules(t, id, rows, g, capability);
      }
      GroupsAre(ops, id);
    case Update(id, name, description, rows) =>
      GroupsAre(ops, id);
      if id in t.groups && rows.Some? {
        CustomIsNotBuiltIn(t, id);
        UpdateRules(t, id, rows.value, g, capability);
      }
    case Delete(id) => DeleteRules(t, id, g, capability);
    case Reopen => SeedIdempotentIn(t);
    case _ =>
  }

  lemma SeedIdempotentIn(t: Tables)
    requires Inv(t)
    ensures Seeded(t) == t
  {
    SeedIdempotent(t);
  }

  lemma CustomIsNotBuiltIn(t: Tables, id: GroupId)
    requires Inv(t) && id in t.groups
    ensures t.groups[id].builtIn <==> BuiltIn(id)
  {
    hide DEFAULT_CAPS, FRIENDS_CAPS, TRUSTED_CAPS;
    TiersPresent(t);
  }

  lemma CreateRules(t: Tables, id: GroupId, rows: seq<Rule>, g: GroupId, capability: Str)
    requires Inv(t) && id !in t.groups
    ensures var r := Inserted(t.rules, id, rows);
            ((g, capability) in r && r[(g, capability)])
            <==> if id == g then AllowsFirst(rows, capability) else Allowing(t, g, capability)
  {
    hide Inserted, AllowsFirst;
    NoRulesWithout(t, id);
    if id == g {
      StoredAllow(t.rules, g, rows, capability);
    } else {
      OthersKeep(t.rules, id, rows, g, capability);
    }
  }

  lemma UpdateRules(t: Tables, id: GroupId, rows: seq<Rule>, g: GroupId, capability: Str)
    ensures var r := Inserted(WithoutGroup(t.rules, id), id, rows);
            ((g, capability) in r && r[(g, capability)])
            <==> if id == g then AllowsFirst(rows, capability) else Allowing(t, g, capability)
  {
    hide Inserted, AllowsFirst, WithoutGroup;
    NoneLeft(t.rules, id);
    if id == g {
      StoredAllow(WithoutGroup(t.rules, id), g, rows, capability);
    } else {
      OthersKeep(WithoutGroup(t.rules, id), id, rows, g, capability);
      OthersKeep(t.rules, id, rows, g, capability);
    }
  }

  lemma DeleteRules(t: Tables, id: GroupId, g: GroupId, capability: Str)
    requires Inv(t) && !BuiltIn(g)
    ensures Allowing(Next(t, Delete(id)), g, capability) <==> Allowing(t, g, capability) && id != g
  {
    hide Inserted;
    NoneLeft(t.rules, id);
    assert (g, capability).0 == g;
    assert (g, capability) in t.rules ==> (g, capability).0 in t.groups;
    if id in t.groups {
      CustomIsNotBuiltIn(t, id);
    }
  }

  /** Over any run a custom group allows exactly what the rows last given to it do, up to their first repeated name. */
  lemma {:induction false} RulesAre(ops: seq<Op>, g: GroupId, capability: Str)
    requires !BuiltIn(g)
    ensures Allowing(Run(ops), g, capability) <==> Governs(ops, g, capability)
  {
    if ops == [] {
      RunKeepsInv([]);
      StandsAtFirst(g);
      NoRulesWithout(Run([]), g);
    } else {
      hide Next, Run, Governs, SetsRows, AllowsFirst, RowsOf, Allowing;
      var before, op := ops[..|ops| - 1], ops[|ops| - 1];
      LastSplit(ops);
      RulesAre(before, g, capability);
      RunSnoc(before, op);
      RulesStep(before, op, g, capability);
      GovernsSnoc(before, op, g, capability);
    }
  }

  // ── Permission ────────────────────────────────────────────────────────────

  /**
   * From the operations alone: everybody's names, the friends' and the trusted peers' for
   * who was assigned there and not removed, and what the governing rows of a custom group
   * the peer belongs to allow.
   */
  ghost predicate Entitled(ops: seq<Op>, peer: Octets, capability: Str) {
    || capability in DEFAULT_CAPS
    || ((Belonging(ops, peer, GROUP_FRIENDS) || Belonging(ops, peer, GROUP_TRUSTED)) && capability in FRIENDS_CAPS)
    || (Belonging(ops, peer, GROUP_TRUSTED) && capability in TRUSTED_CAPS)
    || exists g: GroupId :: !BuiltIn(g) && Belonging(ops, peer, g) && Governs(ops, g, capability)
  }

  /** What the database grants after any run, cyclic query and all, is what the operations entitle to. */
  lemma PermissionIs(ops: seq<Op>, peer: Octets, capability: Str)
    ensures Granted(Run(ops), peer, capability) <==> Entitled(ops, peer, capability)
  {
    hide Inv, Granted, Allowing, Run, Belonging, Governs, DEFAULT_CAPS, FRIENDS_CAPS, TRUSTED_CAPS;
    RunKeepsInv(ops);
    GrantedAre(Run(ops), peer, capability);
    MembershipsAre(ops, peer, GROUP_FRIENDS);
    MembershipsAre(ops, peer, GROUP_TRUSTED);
    forall g: GroupId | !BuiltIn(g)
      ensures (peer, g) in Run(ops).memberships <==> Belonging(ops, peer, g)
      ensures Allowing(Run(ops), g, capability) <==> Governs(ops, g, capability)
    {
      MembershipsAre(ops, peer, g);
      RulesAre(ops, g, capability);
    }
  }

  /** Assigning a peer to a group that stands adds what the groups reachable from it allow, and nothing for others. */
  lemma AssigningGrants(t: Tables, peer: Octets, id: GroupId, who: Octets, capability: Str)
    requires id in t.groups
    ensures Granted(Next(t, Assign(peer, id)), who, capability)
            <==> Granted(t, who, capability)
                 || (who == peer && exists g :: Reaches(t, id, g) && Allowing(t, g, capability))
  {
    var u := Next(t, Assign(peer, id));
    forall origin, g
      ensures Reaches(u, origin, g) <==> Reaches(t, origin, g)
    {
      SameReach(t, u, origin, g);
    }
    hide Reaches, Allowing;
    assert forall g :: Belongs(u, who, g) <==> Belongs(t, who, g) || (who == peer && g == id);
    forall g
      ensures MemberGroup(u, who, g) <==> MemberGroup(t, who, g) || (who == peer && Reaches(t, id, g))
    {
      if who == peer && Reaches(t, id, g) {
        assert Belongs(u, who, id) && Reaches(u, id, g);
      }
    }
    hide MemberGroup;
    assert forall g :: Allowing(u, g, capability) <==> Allowing(t, g, capability) by {
      SameAllowing(t, u, capability);
    }
  }

  lemma SameAllowing(t: Tables, u: Tables, capability: Str)
    requires u.rules == t.rules
    ensures forall g :: Allowing(u, g, capability) <==> Allowing(t, g, capability)
  {
  }

  lemma SameReach(t: Tables, u: Tables, origin: GroupId, g: GroupId)
    requires u.groups == t.groups
    ensures Reaches(u, origin, g) <==> Reaches(t, origin, g)
  {
    if Reaches(t, origin, g) {
      var path :| Chain(t, path) && path[0] == origin && path[|path| - 1] == g;
      assert Chain(u, path);
    }
    if Reaches(u, origin, g) {
      var path :| Chain(u, path) && path[0] == origin && path[|path| - 1] == g;
      assert Chain(t, path);
    }
  }

  /** Whatever was done before, assigning a peer to friends grants it each of the friends' names. */
  lemma FriendsAreGranted(ops: seq<Op>, peer: Octets, capability: Str)
    requires capability in FRIENDS_CAPS
    ensures Granted(Run(ops + [Assign(peer, GROUP_FRIENDS)]), peer, capability)
  {
    hide Granted, Run, Governs, DEFAULT_CAPS, FRIENDS_CAPS, TRUSTED_CAPS;
    PermissionIs(ops + [Assign(peer, GROUP_FRIENDS)], peer, capability);
    BelongingSnoc(ops, Assign(peer, GROUP_FRIENDS), peer, GROUP_FRIENDS);
  }

  /** A group just created allows exactly what its rows do before the first repeated name. */
  lemma CreatedAllows(ops: seq<Op>, id: GroupId, name: string, description: Option<string>, rows: seq<Rule>,
                      capability: Str)
    requires !Stands(ops, id)
    ensures Allowing(Run(ops + [Create(id, name, description, rows)]), id, capability)
            <==> AllowsFirst(rows, capability)
  {
    hide Run, Governs, Allowing, AllowsFirst;
    RulesAre(ops + [Create(id, name, description, rows)], id, capability);
    GovernsSnoc(ops, Create(id, name, description, rows), id, capability);
  }

  const FEED := Ascii("howm.social.feed.1")
  const RELAY := Ascii("core.network.relay.1")

  lemma TierNames()
    ensures FEED in FRIENDS_CAPS && FEED !in DEFAULT_CAPS && FEED !in TRUSTED_CAPS
    ensures RELAY in TRUSTED_CAPS && RELAY !in FRIENDS_CAPS && RELAY !in DEFAULT_CAPS
  {
    hide Ascii;
    assert SOCIAL_CAPS[0] == FEED && FRIENDS_CAPS[0] == FEED && TRUSTED_CAPS[0] == RELAY;
    DefaultLengths();
    FriendsLengths();
    hide DEFAULT_CAPS, FRIENDS_CAPS, TRUSTED_CAPS;
  }

  lemma DefaultLengths()
    ensures forall c :: c in DEFAULT_CAPS ==> |c| > 20
  {
    hide Ascii;
  }

  lemma FriendsLengths()
    ensures forall c :: c in FRIENDS_CAPS ==> |c| != 20
  {
    hide Ascii;
  }

  lemma FreshGroups()
    ensures Run([]).groups
            == map[1 := Group("howm.default", true, Some(DEFAULT_TEXT), None),
                   2 := Group("howm.friends", true, Some(FRIENDS_TEXT), Some(1)),
                   3 := Group("howm.trusted", true, Some(TRUSTED_TEXT), Some(2))]
  {
    hide SeededRules, DEFAULT_CAPS, FRIENDS_CAPS, TRUSTED_CAPS, DEFAULT_TEXT, FRIENDS_TEXT, TRUSTED_TEXT;
  }

  /** Friends may have the feed but not the relay, trusted peers both, strangers neither. */
  lemma FeedAndRelay(peer: Octets)
    ensures !Granted(Run([]), peer, FEED) && !Granted(Run([]), peer, RELAY)
    ensures var friend := Run([Assign(peer, GROUP_FRIENDS)]);
            Granted(friend, peer, FEED) && !Granted(friend, peer, RELAY)
    ensures var trusted := Run([Assign(peer, GROUP_TRUSTED)]);
            Granted(trusted, peer, FEED) && Granted(trusted, peer, RELAY)
  {
    TierNames();
    hide Granted, Run, Governs, Belonging, DEFAULT_CAPS, FRIENDS_CAPS, TRUSTED_CAPS, FEED, RELAY;
    forall c: Str
      ensures Granted(Run([]), peer, c) <==> c in DEFAULT_CAPS
      ensures Granted(Run([Assign(peer, GROUP_FRIENDS)]), peer, c) <==> c in DEFAULT_CAPS || c in FRIENDS_CAPS
      ensures Granted(Run([Assign(peer, GROUP_TRUSTED)]), peer, c)
              <==> c in DEFAULT_CAPS || c in FRIENDS_CAPS || c in TRUSTED_CAPS
    {
      OneAssignment(peer, GROUP_FRIENDS, c);
      OneAssignment(peer, GROUP_TRUSTED, c);
    }
  }

  lemma OneAssignment(peer: Octets, id: GroupId, c: Str)
    requires id == GROUP_FRIENDS || id == GROUP_TRUSTED
    ensures Granted(Run([]), peer, c) <==> c in DEFAULT_CAPS
    ensures Granted(Run([Assign(peer, id)]), peer, c)
            <==> c in DEFAULT_CAPS || c in FRIENDS_CAPS || (id == GROUP_TRUSTED && c in TRUSTED_CAPS)
  {
    hide Granted, Run, Governs, Belonging, DEFAULT_CAPS, FRIENDS_CAPS, TRUSTED_CAPS;
    var one := [Assign(peer, id)];
    assert one == [] + [Assign(peer, id)];
    forall g: GroupId
      ensures !Belonging([], peer, g) && (Belonging(one, peer, g) <==> g == id)
    {
      BelongingNone(peer, g);
      BelongingSnoc([], Assign(peer, id), peer, g);
    }
    PermissionIs([], peer, c);
    PermissionIs(one, peer, c);
  }

  lemma BelongingNone(peer: Octets, g: GroupId)
    ensures !Belonging([], peer, g)
  {
  }
}
