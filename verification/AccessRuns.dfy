/** What every run of database operations keeps, and what it means for the trust gate. */
module AccessRuns {
  import opened Prelude
  import opened Access

  // ── Invariant ─────────────────────────────────────────────────────────────

  /** The declared foreign keys. */
  ghost predicate ForeignKeys(t: Tables) {
    && (forall k :: k in t.rules ==> k.0 in t.groups)
    && (forall m :: m in t.memberships ==> m.1 in t.groups)
    && (forall g :: g in t.groups && t.groups[g].parent.Some? ==> t.groups[g].parent.value in t.groups)
  }

  /** A built-in group with this parent and exactly these rules, all allowing. */
  ghost predicate Tier(t: Tables, g: GroupId, parent: Option<GroupId>, capabilities: seq<Str>) {
    && g in t.groups && t.groups[g].builtIn && t.groups[g].parent == parent
    && (forall c :: (g, c) in t.rules <==> c in capabilities)
    && (forall c :: c in capabilities ==> (g, c) in t.rules && t.rules[(g, c)])
  }

  predicate BuiltIn(g: GroupId) {
    g == GROUP_DEFAULT || g == GROUP_FRIENDS || g == GROUP_TRUSTED
  }

  ghost predicate Tiers(t: Tables) {
    && Tier(t, GROUP_DEFAULT, None, DEFAULT_CAPS)
    && Tier(t, GROUP_FRIENDS, Some(GROUP_DEFAULT), FRIENDS_CAPS)
    && Tier(t, GROUP_TRUSTED, Some(GROUP_FRIENDS), TRUSTED_CAPS)
  }

  /** Groups made by users are flat. */
  ghost predicate CustomGroups(t: Tables) {
    forall g :: g in t.groups && !BuiltIn(g) ==> !t.groups[g].builtIn && t.groups[g].parent.None?
  }

  ghost predicate Inv(t: Tables) {
    ForeignKeys(t) && Tiers(t) && CustomGroups(t)
  }

  // ── Seeding ───────────────────────────────────────────────────────────────

  lemma SeededRulesAre(rules: map<(GroupId, Str), bool>, g: GroupId, capabilities: seq<Str>, h: GroupId, c: Str)
    ensures (h, c) in SeededRules(rules, g, capabilities) <==> (h, c) in rules || (h == g && c in capabilities)
    ensures (h, c) in SeededRules(rules, g, capabilities) ==>
              SeededRules(rules, g, capabilities)[(h, c)] == if (h, c) in rules then rules[(h, c)] else true
  {
    assert c in capabilities ==> (g, c) in (set x | x in capabilities :: (g, x));
  }

  /** A tier with no rules of its own yet comes out complete; every other group is untouched. */
  lemma SeededTierIs(t: Tables, id: GroupId, name: string, description: string, parent: Option<GroupId>,
                     capabilities: seq<Str>)
    ensures var u := SeededTier(t, id, name, description, parent, capabilities);
            && (forall g :: g != id ==> (g in u.groups <==> g in t.groups))
            && (forall g :: g != id && g in t.groups ==> u.groups[g] == t.groups[g])
            && (forall k: (GroupId, Str) :: k.0 != id ==> (k in u.rules <==> k in t.rules))
            && (forall k: (GroupId, Str) :: k.0 != id && k in t.rules ==> u.rules[k] == t.rules[k])
            && u.memberships == t.memberships
            && (id !in t.groups && (forall k: (GroupId, Str) :: k in t.rules ==> k.0 != id)
               ==> Tier(u, id, parent, capabilities))
  {
    hide Ascii;
    forall k: (GroupId, Str)
      ensures k in SeededRules(t.rules, id, capabilities) <==> k in t.rules || (k.0 == id && k.1 in capabilities)
      ensures k in t.rules ==> SeededRules(t.rules, id, capabilities)[k] == t.rules[k]
      ensures k !in t.rules && k.0 == id && k.1 in capabilities ==> SeededRules(t.rules, id, capabilities)[k]
    {
      SeededRulesAre(t.rules, id, capabilities, k.0, k.1);
    }
  }

  /** Seeding a complete tier changes nothing. */
  lemma SeededTierKeeps(t: Tables, id: GroupId, name: string, description: string, parent: Option<GroupId>,
                        capabilities: seq<Str>)
    requires Tier(t, id, parent, capabilities)
    ensures SeededTier(t, id, name, description, parent, capabilities) == t
  {
    forall k: (GroupId, Str)
      ensures k in SeededRules(t.rules, id, capabilities) <==> k in t.rules
      ensures k in t.rules ==> SeededRules(t.rules, id, capabilities)[k] == t.rules[k]
    {
      SeededRulesAre(t.rules, id, capabilities, k.0, k.1);
    }
    assert SeededRules(t.rules, id, capabilities) == t.rules;
  }

  /** Re-opening any well-formed database changes nothing. */
  lemma SeedIdempotent(t: Tables)
    requires Tiers(t)
    ensures Seeded(t) == t
  {
    hide SeededTier, Tier;
    SeededTierKeeps(t, GROUP_DEFAULT, "howm.default", DEFAULT_TEXT, None, DEFAULT_CAPS);
    SeededTierKeeps(t, GROUP_FRIENDS, "howm.friends", FRIENDS_TEXT, Some(GROUP_DEFAULT), FRIENDS_CAPS);
    SeededTierKeeps(t, GROUP_TRUSTED, "howm.trusted", TRUSTED_TEXT, Some(GROUP_FRIENDS), TRUSTED_CAPS);
  }

  // ── Runs ──────────────────────────────────────────────────────────────────

  /** A run of INSERTs adds exactly the first rows, up to the first repeated capability. */
  lemma {:induction false} InsertedRows(rules: map<(GroupId, Str), bool>, g: GroupId, rows: seq<Rule>, h: GroupId,
                                        c: Str)
    ensures var r := Inserted(rules, g, rows); var n := FitLength(rules, g, rows);
            && ((h, c) in r <==> (h, c) in rules || (h == g && exists i :: 0 <= i < n && rows[i].capability == c))
            && ((h, c) in rules ==> r[(h, c)] == rules[(h, c)])
            && (forall i :: 0 <= i < n ==> (g, rows[i].capability) in r && r[(g, rows[i].capability)] == rows[i].allow)
    decreases |rows|
  {
    if rows != [] && (g, rows[0].capability) !in rules {
      var rest, n := rows[1..], FitLength(rules, g, rows);
      var rules' := rules[(g, rows[0].capability) := rows[0].allow];
      InsertedRows(rules', g, rest, h, c);
      InsertedRows(rules', g, rest, g, rows[0].capability);
      assert forall i :: 0 <= i < n - 1 ==> rest[i] == rows[i + 1];
      if i :| 0 <= i < n && rows[i].capability == c {
        assert i == 0 || rest[i - 1] == rows[i];
      }
    }
  }

  predicate DistinctRows(rows: seq<Rule>) {
    forall i, j :: 0 <= i < j < |rows| ==> rows[i].capability != rows[j].capability
  }

  /** Every row is stored exactly when no capability is named twice or already there. */
  lemma {:induction false} AllRowsFit(rules: map<(GroupId, Str), bool>, g: GroupId, rows: seq<Rule>)
    ensures FitLength(rules, g, rows) == |rows|
            <==> DistinctRows(rows) && forall i :: 0 <= i < |rows| ==> (g, rows[i].capability) !in rules
    decreases |rows|
  {
    if rows != [] && (g, rows[0].capability) !in rules {
      var rest := rows[1..];
      var rules' := rules[(g, rows[0].capability) := rows[0].allow];
      AllRowsFit(rules', g, rest);
      assert forall i :: 0 <= i < |rest| ==> rest[i] == rows[i + 1];
      if FitLength(rules', g, rest) == |rest| {
        forall i, j | 0 <= i < j < |rows|
          ensures rows[i].capability != rows[j].capability
        {
          assert (g, rest[j - 1].capability) !in rules';
          assert i > 0 ==> rest[i - 1].capability != rest[j - 1].capability;
        }
        forall i | 0 <= i < |rows|
          ensures (g, rows[i].capability) !in rules
        {
          assert i > 0 ==> (g, rest[i - 1].capability) !in rules';
        }
      }
    }
  }

  /** Rules of the other groups are the same. */
  ghost predicate OnlyTouches(before: map<(GroupId, Str), bool>, after: map<(GroupId, Str), bool>, g: GroupId) {
    forall k: (GroupId, Str) :: k.0 != g ==> (k in after <==> k in before) && (k in before ==> after[k] == before[k])
  }

  lemma InsertedTouches(rules: map<(GroupId, Str), bool>, g: GroupId, rows: seq<Rule>)
    ensures OnlyTouches(rules, Inserted(rules, g, rows), g)
  {
    forall k: (GroupId, Str) | k.0 != g
      ensures k in Inserted(rules, g, rows) <==> k in rules
      ensures k in rules ==> Inserted(rules, g, rows)[k] == rules[k]
    {
      InsertedRows(rules, g, rows, k.0, k.1);
    }
  }

  /** Tiers only look at the built-in groups and their rules. */
  lemma TierKept(t: Tables, u: Tables, touched: GroupId, g: GroupId, parent: Option<GroupId>, capabilities: seq<Str>)
    requires Tier(t, g, parent, capabilities) && g != touched && OnlyTouches(t.rules, u.rules, touched)
    requires g in u.groups && u.groups[g].builtIn && u.groups[g].parent == t.groups[g].parent
    ensures Tier(u, g, parent, capabilities)
  {
    hide DEFAULT_CAPS, FRIENDS_CAPS, TRUSTED_CAPS;
    forall c: Str
      ensures (g, c) in u.rules <==> (g, c) in t.rules
      ensures (g, c) in t.rules ==> u.rules[(g, c)] == t.rules[(g, c)]
    {
      assert (g, c).0 == g;
    }
  }

  /** Seeding a missing tier completes it and keeps what the other groups are. */
  lemma SeededTierAdds(t: Tables, id: GroupId, name: string, description: string, parent: Option<GroupId>,
                       capabilities: seq<Str>)
    requires ForeignKeys(t) && CustomGroups(t) && BuiltIn(id) && id !in t.groups
    requires parent.Some? ==> parent.value in t.groups
    ensures var u := SeededTier(t, id, name, description, parent, capabilities);
            && ForeignKeys(u) && CustomGroups(u) && Tier(u, id, parent, capabilities)
            && OnlyTouches(t.rules, u.rules, id)
            && u.groups.Keys == t.groups.Keys + {id}
            && (forall g :: g in t.groups ==> u.groups[g] == t.groups[g])
  {
    SeededTierIs(t, id, name, description, parent, capabilities);
    var u := SeededTier(t, id, name, description, parent, capabilities);
    NoRulesYet(t, id);
    hide SeededRules, Tier, ForeignKeys, CustomGroups;
    GroupAdded(t, u, id, Group(name, true, Some(description), parent));
  }

  lemma NoRulesYet(t: Tables, id: GroupId)
    requires ForeignKeys(t) && id !in t.groups
    ensures forall k: (GroupId, Str) :: k in t.rules ==> k.0 != id
  {
  }

  lemma GroupAdded(t: Tables, u: Tables, id: GroupId, g: Group)
    requires ForeignKeys(t) && CustomGroups(t) && BuiltIn(id) && id !in t.groups
    requires g.builtIn && (g.parent.Some? ==> g.parent.value in t.groups)
    requires u.groups == t.groups[id := g] && u.memberships == t.memberships
    requires forall k: (GroupId, Str) :: k.0 != id ==> (k in u.rules <==> k in t.rules)
    ensures ForeignKeys(u) && CustomGroups(u)
  {
    assert forall k :: k in u.rules ==> k in t.rules || k.0 == id;
  }

  lemma SeededEmpty()
    ensures Inv(Seeded(EMPTY_TABLES))
  {
    hide SeededTier, Tier, ForeignKeys, CustomGroups, OnlyTouches, DEFAULT_CAPS, FRIENDS_CAPS, TRUSTED_CAPS;
    NothingStored();
    var t1 := SeededTier(EMPTY_TABLES, GROUP_DEFAULT, "howm.default", DEFAULT_TEXT, None, DEFAULT_CAPS);
    SeededTierAdds(EMPTY_TABLES, GROUP_DEFAULT, "howm.default", DEFAULT_TEXT, None, DEFAULT_CAPS);
    var t2 := SeededTier(t1, GROUP_FRIENDS, "howm.friends", FRIENDS_TEXT, Some(GROUP_DEFAULT), FRIENDS_CAPS);
    SeededTierAdds(t1, GROUP_FRIENDS, "howm.friends", FRIENDS_TEXT, Some(GROUP_DEFAULT), FRIENDS_CAPS);
    TierBuiltIn(t1, GROUP_DEFAULT, None, DEFAULT_CAPS);
    TierKept(t1, t2, GROUP_FRIENDS, GROUP_DEFAULT, None, DEFAULT_CAPS);
    var t3 := SeededTier(t2, GROUP_TRUSTED, "howm.trusted", TRUSTED_TEXT, Some(GROUP_FRIENDS), TRUSTED_CAPS);
    SeededTierAdds(t2, GROUP_TRUSTED, "howm.trusted", TRUSTED_TEXT, Some(GROUP_FRIENDS), TRUSTED_CAPS);
    TierBuiltIn(t2, GROUP_FRIENDS, Some(GROUP_DEFAULT), FRIENDS_CAPS);
    TierBuiltIn(t2, GROUP_DEFAULT, None, DEFAULT_CAPS);
    TierKept(t2, t3, GROUP_TRUSTED, GROUP_DEFAULT, None, DEFAULT_CAPS);
    TierKept(t2, t3, GROUP_TRUSTED, GROUP_FRIENDS, Some(GROUP_DEFAULT), FRIENDS_CAPS);
  }

  lemma NothingStored()
    ensures ForeignKeys(EMPTY_TABLES) && CustomGroups(EMPTY_TABLES) && EMPTY_TABLES.groups == map[]
  {
  }

  lemma TierBuiltIn(t: Tables, g: GroupId, parent: Option<GroupId>, capabilities: seq<Str>)
    requires Tier(t, g, parent, capabilities)
    ensures g in t.groups && t.groups[g].builtIn
  {
  }

  lemma TiersKept(t: Tables, u: Tables, touched: GroupId)
    requires Tiers(t) && !BuiltIn(touched) && OnlyTouches(t.rules, u.rules, touched)
    requires forall g :: g in t.groups && BuiltIn(g) ==>
               g in u.groups && u.groups[g].builtIn && u.groups[g].parent == t.groups[g].parent
    ensures Tiers(u)
  {
    hide DEFAULT_CAPS, FRIENDS_CAPS, TRUSTED_CAPS;
    assert BuiltIn(GROUP_DEFAULT) && BuiltIn(GROUP_FRIENDS) && BuiltIn(GROUP_TRUSTED);
    TierKept(t, u, touched, GROUP_DEFAULT, None, DEFAULT_CAPS);
    TierKept(t, u, touched, GROUP_FRIENDS, Some(GROUP_DEFAULT), FRIENDS_CAPS);
    TierKept(t, u, touched, GROUP_TRUSTED, Some(GROUP_FRIENDS), TRUSTED_CAPS);
  }

  lemma CreateKeepsInv(t: Tables, id: GroupId, name: string, description: Option<string>, rows: seq<Rule>)
    requires Inv(t)
    ensures Inv(Next(t, Create(id, name, description, rows)))
  {
    hide DEFAULT_CAPS, FRIENDS_CAPS, TRUSTED_CAPS, Tier, Inserted;
    if id !in t.groups {
      var u := Next(t, Create(id, name, description, rows));
      TiersPresent(t);
      InsertedTouches(t.rules, id, rows);
      TiersKept(t, u, id);
    }
  }

  lemma TiersPresent(t: Tables)
    requires Tiers(t)
    ensures forall g :: BuiltIn(g) ==> g in t.groups && t.groups[g].builtIn
  {
  }

  lemma SameTiers(t: Tables, u: Tables)
    requires Tiers(t) && u.rules == t.rules && u.groups.Keys == t.groups.Keys
    requires forall g :: g in t.groups ==>
               u.groups[g].builtIn == t.groups[g].builtIn && u.groups[g].parent == t.groups[g].parent
    ensures Tiers(u)
  {
    hide DEFAULT_CAPS, FRIENDS_CAPS, TRUSTED_CAPS;
  }

  lemma RenameKeepsInv(t: Tables, id: GroupId, name: Option<string>, description: Option<Option<string>>)
    requires Inv(t) && id in t.groups
    ensures Inv(t.(groups := t.groups[id := Edited(t.groups[id], name, description)]))
  {
    hide DEFAULT_CAPS, FRIENDS_CAPS, TRUSTED_CAPS, Edited, Tier;
    EditedKeeps(t.groups[id], name, description);
    SameTiers(t, t.(groups := t.groups[id := Edited(t.groups[id], name, description)]));
  }

  lemma EditedKeeps(g: Group, name: Option<string>, description: Option<Option<string>>)
    ensures Edited(g, name, description).builtIn == g.builtIn && Edited(g, name, description).parent == g.parent
  {
  }

  lemma ReplaceRulesKeepsInv(t: Tables, id: GroupId, rows: seq<Rule>)
    requires Inv(t) && id in t.groups && !BuiltIn(id)
    ensures Inv(t.(rules := Inserted(WithoutGroup(t.rules, id), id, rows)))
  {
    hide DEFAULT_CAPS, FRIENDS_CAPS, TRUSTED_CAPS, Inserted, Tier;
    var u := t.(rules := Inserted(WithoutGroup(t.rules, id), id, rows));
    InsertedTouches(WithoutGroup(t.rules, id), id, rows);
    assert OnlyTouches(t.rules, u.rules, id);
    TiersPresent(t);
    TiersKept(t, u, id);
  }

  lemma UpdateKeepsInv(t: Tables, id: GroupId, name: Option<string>, description: Option<Option<string>>,
                       rows: Option<seq<Rule>>)
    requires Inv(t)
    ensures Inv(Next(t, Update(id, name, description, rows)))
  {
    hide Inserted, Tier, Edited;
    if id in t.groups && !(t.groups[id].builtIn && rows.Some?) {
      TiersPresent(t);
      hide Inv;
      RenameKeepsInv(t, id, name, description);
      if rows.Some? {
        ReplaceRulesKeepsInv(t.(groups := t.groups[id := Edited(t.groups[id], name, description)]), id, rows.value);
      }
    }
  }

  lemma TierParents(t: Tables)
    requires Tiers(t)
    ensures forall g :: BuiltIn(g) ==> g in t.groups && (t.groups[g].parent.Some? ==> BuiltIn(t.groups[g].parent.value))
  {
    hide DEFAULT_CAPS, FRIENDS_CAPS, TRUSTED_CAPS;
  }

  lemma DeletedKeys(t: Tables, id: GroupId)
    requires ForeignKeys(t) && CustomGroups(t)
    ensures ForeignKeys(Deleted(t, id)) && CustomGroups(Deleted(t, id))
    ensures OnlyTouches(t.rules, Deleted(t, id).rules, id)
  {
  }

  lemma DeleteKeepsInv(t: Tables, id: GroupId)
    requires Inv(t)
    ensures Inv(Next(t, Delete(id)))
  {
    hide DEFAULT_CAPS, FRIENDS_CAPS, TRUSTED_CAPS, Tier, ForeignKeys, CustomGroups, WithoutGroup;
    var u := Next(t, Delete(id));
    if u != t {
      TiersPresent(t);
      TierParents(t);
      assert !BuiltIn(id);
      DeletedKeys(t, id);
      TiersKept(t, u, id);
    }
  }

  /** Foreign keys, built-in tiers and flat custom groups survive every operation. */
  lemma NextKeepsInv(t: Tables, op: Op)
    requires Inv(t)
    ensures Inv(Next(t, op))
  {
    hide Tier, Seeded;
    match op
    case Create(id, name, description, rows) => CreateKeepsInv(t, id, name, description, rows);
    case Update(id, name, description, rows) => UpdateKeepsInv(t, id, name, description, rows);
    case Delete(id) => DeleteKeepsInv(t, id);
    case Reopen => SeedIdempotent(t);
    case Assign(peer, id) => MembershipsKeepInv(t, Next(t, op));
    case Remove(peer, id) => MembershipsKeepInv(t, Next(t, op));
    case RemoveAll(peer) => MembershipsKeepInv(t, Next(t, op));
  }

  lemma MembershipsKeepInv(t: Tables, u: Tables)
    requires Inv(t) && u.groups == t.groups && u.rules == t.rules
    requires forall m :: m in u.memberships ==> m in t.memberships || m.1 in t.groups
    ensures Inv(u)
  {
  }

  /** The tables after a run of operations on a fresh database. */
  function Run(ops: seq<Op>): Tables {
    if ops == [] then Seeded(EMPTY_TABLES) else Next(Run(ops[..|ops| - 1]), ops[|ops| - 1])
  }

  lemma {:induction false} RunKeepsInv(ops: seq<Op>)
    ensures Inv(Run(ops))
  {
    hide Inv, Next, Seeded;
    if ops == [] {
      SeededEmpty();
    } else {
      RunKeepsInv(ops[..|ops| - 1]);
      NextKeepsInv(Run(ops[..|ops| - 1]), ops[|ops| - 1]);
    }
  }

  // ── What a reachable database grants ──────────────────────────────────────

  /** The highest tier a peer is assigned to decides which built-in rules apply. */
  predicate InTier(t: Tables, peer: Octets, g: GroupId) {
    || g == GROUP_DEFAULT
    || (g == GROUP_FRIENDS && ((peer, GROUP_FRIENDS) in t.memberships || (peer, GROUP_TRUSTED) in t.memberships))
    || (g == GROUP_TRUSTED && (peer, GROUP_TRUSTED) in t.memberships)
  }

  lemma NoParent(t: Tables, origin: GroupId, g: GroupId)
    requires origin in t.groups && t.groups[origin].parent.None?
    ensures Reaches(t, origin, g) <==> g == origin
  {
    hide Reaches;
    ReachesUnfold(t, origin, g);
  }

  lemma OneParent(t: Tables, origin: GroupId, parent: GroupId, g: GroupId)
    requires Linked(t, origin, parent)
    ensures Reaches(t, origin, g) <==> g == origin || Reaches(t, parent, g)
  {
    hide Reaches;
    ReachesUnfold(t, origin, g);
  }

  lemma TierReaches(t: Tables, g: GroupId)
    requires Tiers(t)
    ensures Reaches(t, GROUP_DEFAULT, g) <==> g == GROUP_DEFAULT
    ensures Reaches(t, GROUP_FRIENDS, g) <==> g == GROUP_FRIENDS || g == GROUP_DEFAULT
    ensures Reaches(t, GROUP_TRUSTED, g) <==> BuiltIn(g)
  {
    hide Reaches, DEFAULT_CAPS, FRIENDS_CAPS, TRUSTED_CAPS;
    NoParent(t, GROUP_DEFAULT, g);
    OneParent(t, GROUP_FRIENDS, GROUP_DEFAULT, g);
    OneParent(t, GROUP_TRUSTED, GROUP_FRIENDS, g);
  }

  /** The groups that count for a peer. */
  lemma MemberGroupsAre(t: Tables, peer: Octets, g: GroupId)
    requires Inv(t)
    ensures MemberGroup(t, peer, g) <==> InTier(t, peer, g) || (!BuiltIn(g) && (peer, g) in t.memberships)
  {
    hide Reaches, DEFAULT_CAPS, FRIENDS_CAPS, TRUSTED_CAPS;
    forall origin | Belongs(t, peer, origin) && !BuiltIn(origin)
      ensures Reaches(t, origin, g) <==> g == origin
    {
      assert (peer, origin).1 in t.groups;
      NoParent(t, origin, g);
    }
    TierReaches(t, g);
    assert Belongs(t, peer, GROUP_DEFAULT);
    assert Belongs(t, peer, GROUP_FRIENDS) <==> (peer, GROUP_FRIENDS) in t.memberships;
    assert Belongs(t, peer, GROUP_TRUSTED) <==> (peer, GROUP_TRUSTED) in t.memberships;
    assert Belongs(t, peer, g) && !BuiltIn(g) ==> Reaches(t, g, g);
  }

  /** The permission a reachable database grants, tier by tier: each tier includes the ones below. */
  lemma GrantedAre(t: Tables, peer: Octets, capability: Str)
    requires Inv(t)
    ensures Granted(t, peer, capability)
            <==> || capability in DEFAULT_CAPS
                 || (InTier(t, peer, GROUP_FRIENDS) && capability in FRIENDS_CAPS)
                 || (InTier(t, peer, GROUP_TRUSTED) && capability in TRUSTED_CAPS)
                 || exists g: GroupId :: !BuiltIn(g) && (peer, g) in t.memberships && Allowing(t, g, capability)
  {
    hide MemberGroup, DEFAULT_CAPS, FRIENDS_CAPS, TRUSTED_CAPS;
    forall g: GroupId
      ensures MemberGroup(t, peer, g) <==> InTier(t, peer, g) || (!BuiltIn(g) && (peer, g) in t.memberships)
    {
      MemberGroupsAre(t, peer, g);
    }
    assert Allowing(t, GROUP_DEFAULT, capability) <==> capability in DEFAULT_CAPS;
    assert Allowing(t, GROUP_FRIENDS, capability) <==> capability in FRIENDS_CAPS;
    assert Allowing(t, GROUP_TRUSTED, capability) <==> capability in TRUSTED_CAPS;
  }
}
