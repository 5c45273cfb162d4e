/** Groups, rules, memberships and permissions (node/access/src/db.rs and schema.rs). */
module Access {
  import opened Prelude

  type GroupId = x: int | 0 <= x < 0x1_0000_0000_0000_0000_0000_0000_0000_0000

  const GROUP_DEFAULT: GroupId := 1
  const GROUP_FRIENDS: GroupId := 2
  const GROUP_TRUSTED: GroupId := 3

  const DEFAULT_TEXT := "Session health + endpoint reflection only"
  const FRIENDS_TEXT := "Inherits default + social, room access, and peer exchange"
  const TRUSTED_TEXT := "Full access — inherits friends + relay"

  const DEFAULT_CAPS: seq<Str> := [
    Ascii("core.session.heartbeat.1"),
    Ascii("core.session.attest.1"),
    Ascii("core.session.latency.1"),
    Ascii("core.network.endpoint.1"),
    Ascii("core.session.timesync.1")
  ]

  const SOCIAL_CAPS: seq<Str> := [
    Ascii("howm.social.feed.1"),
    Ascii("howm.social.messaging.1"),
    Ascii("howm.social.files.1"),
    Ascii("howm.social.presence.1"),
    Ascii("howm.social.voice.1")
  ]

  const DATA_CAPS: seq<Str> := [
    Ascii("core.network.peerexchange.1"),
    Ascii("core.data.rpc.1"),
    Ascii("core.data.blob.1"),
    Ascii("core.data.event.1"),
    Ascii("core.data.stream.1")
  ]

  const FRIENDS_CAPS := SOCIAL_CAPS + DATA_CAPS

  const TRUSTED_CAPS: seq<Str> := [Ascii("core.network.relay.1")]

  datatype Group = Group(name: string, builtIn: bool, description: Option<string>, parent: Option<GroupId>)

  datatype Rule = Rule(capability: Str, allow: bool)

  /** The three tables; `rules` is keyed by its UNIQUE columns. */
  datatype Tables = Tables(
    groups: map<GroupId, Group>,
    rules: map<(GroupId, Str), bool>,
    memberships: set<(Octets, GroupId)>)

  const EMPTY_TABLES := Tables(map[], map[], {})

  // ── Permission, declaratively ─────────────────────────────────────────────

  predicate Linked(t: Tables, child: GroupId, parent: GroupId) {
    child in t.groups && t.groups[child].parent == Some(parent)
  }

  /** A chain of parent links. */
  ghost predicate Chain(t: Tables, path: seq<GroupId>) {
    path != [] && forall i :: 0 <= i < |path| - 1 ==> Linked(t, path[i], path[i + 1])
  }

  ghost predicate Reaches(t: Tables, origin: GroupId, g: GroupId) {
    exists path :: Chain(t, path) && path[0] == origin && path[|path| - 1] == g
  }

  /** Everyone is in the default group. */
  predicate Belongs(t: Tables, peer: Octets, g: GroupId) {
    g == GROUP_DEFAULT || (peer, g) in t.memberships
  }

  ghost predicate MemberGroup(t: Tables, peer: Octets, g: GroupId) {
    exists origin :: Belongs(t, peer, origin) && Reaches(t, origin, g)
  }

  predicate Allowing(t: Tables, g: GroupId, capability: Str) {
    (g, capability) in t.rules && t.rules[(g, capability)]
  }

  ghost predicate Granted(t: Tables, peer: Octets, capability: Str) {
    exists g :: MemberGroup(t, peer, g) && Allowing(t, g, capability)
  }

  lemma ReachesSelf(t: Tables, g: GroupId)
    ensures Reaches(t, g, g)
  {
    assert Chain(t, [g]) && [g][0] == g;
  }

  lemma ReachesStep(t: Tables, origin: GroupId, g: GroupId, parent: GroupId)
    requires Reaches(t, origin, g) && Linked(t, g, parent)
    ensures Reaches(t, origin, parent)
  {
    var path :| Chain(t, path) && path[0] == origin && path[|path| - 1] == g;
    assert Chain(t, path + [parent]);
  }

  /** A group reaches itself and whatever its parent reaches. */
  lemma ReachesUnfold(t: Tables, origin: GroupId, g: GroupId)
    ensures Reaches(t, origin, g)
            <==> origin == g || exists parent :: Linked(t, origin, parent) && Reaches(t, parent, g)
  {
    if origin == g {
      ReachesSelf(t, g);
    }
    if path :| Chain(t, path) && path[0] == origin && path[|path| - 1] == g && origin != g {
      var rest := path[1..];
      assert Linked(t, path[0], path[1]);
      assert Chain(t, rest) && rest[0] == path[1] && rest[|rest| - 1] == g;
    }
    if parent :| Linked(t, origin, parent) && Reaches(t, parent, g) {
      var path :| Chain(t, path) && path[0] == parent && path[|path| - 1] == g;
      var longer := [origin] + path;
      assert forall i :: 0 <= i < |longer| - 1 ==> Linked(t, longer[i], longer[i + 1]);
      assert Chain(t, longer);
    }
  }

  // ── Writes, on values ─────────────────────────────────────────────────────

  /** How many of the rows a run of INSERTs stores before the UNIQUE columns stop it. */
  function FitLength(rules: map<(GroupId, Str), bool>, g: GroupId, rows: seq<Rule>): (n: nat)
    ensures n <= |rows|
    decreases |rows|
  {
    if rows == [] || (g, rows[0].capability) in rules then 0
    else 1 + FitLength(rules[(g, rows[0].capability) := rows[0].allow], g, rows[1..])
  }

  function Inserted(rules: map<(GroupId, Str), bool>, g: GroupId, rows: seq<Rule>): map<(GroupId, Str), bool>
    decreases |rows|
  {
    if rows == [] || (g, rows[0].capability) in rules then rules
    else Inserted(rules[(g, rows[0].capability) := rows[0].allow], g, rows[1..])
  }

  function WithoutGroup(rules: map<(GroupId, Str), bool>, g: GroupId): map<(GroupId, Str), bool> {
    map k | k in rules && k.0 != g :: rules[k]
  }

  /** ON DELETE CASCADE for rules and memberships, ON DELETE SET NULL for parents. */
  function Deleted(t: Tables, id: GroupId): Tables {
    Tables(
      map g | g in t.groups && g != id ::
        if t.groups[g].parent == Some(id) then t.groups[g].(parent := None) else t.groups[g],
      WithoutGroup(t.rules, id),
      set m | m in t.memberships && m.1 != id)
  }

  /** Only the fields given change. */
  lemma EditedIs(g: Group, name: Option<string>, description: Option<Option<string>>)
    ensures var r := Edited(g, name, description);
            && r.name == (if name.Some? then name.value else g.name)
            && r.description == (if description.Some? then description.value else g.description)
            && r.builtIn == g.builtIn && r.parent == g.parent
  {
  }

  function Edited(g: Group, name: Option<string>, description: Option<Option<string>>): Group {
    var named := if name.Some? then g.(name := name.value) else g;
    if description.Some? then named.(description := description.value) else named
  }

  /** INSERT OR IGNORE of one allowing rule per capability. */
  function SeededRules(rules: map<(GroupId, Str), bool>, g: GroupId, capabilities: seq<Str>)
    : map<(GroupId, Str), bool> {
    map k | k in rules.Keys + (set c | c in capabilities :: (g, c)) :: if k in rules then rules[k] else true
  }

  function Upserted(groups: map<GroupId, Group>, id: GroupId, name: string, description: string,
                    parent: Option<GroupId>): map<GroupId, Group> {
    if id !in groups then groups[id := Group(name, true, Some(description), parent)]
    else if groups[id].parent.None? then groups[id := groups[id].(parent := parent)]
    else groups
  }

  /** A missing group is added as built-in; one that is there at most gets the parent it lacks. */
  lemma UpsertedIs(groups: map<GroupId, Group>, id: GroupId, name: string, description: string, parent: Option<GroupId>)
    ensures var r := Upserted(groups, id, name, description, parent);
            && r.Keys == groups.Keys + {id}
            && (forall g :: g in groups && g != id ==> r[g] == groups[g])
            && (id !in groups ==> r[id] == Group(name, true, Some(description), parent))
            && (id in groups ==>
                  r[id] == groups[id].(parent := if groups[id].parent.None? then parent else groups[id].parent))
  {
  }

  function SeededTier(t: Tables, id: GroupId, name: string, description: string, parent: Option<GroupId>,
                      capabilities: seq<Str>): Tables {
    t.(groups := Upserted(t.groups, id, name, description, parent), rules := SeededRules(t.rules, id, capabilities))
  }

  function Seeded(t: Tables): Tables {
    var t1 := SeededTier(t, GROUP_DEFAULT, "howm.default", DEFAULT_TEXT, None, DEFAULT_CAPS);
    var t2 := SeededTier(t1, GROUP_FRIENDS, "howm.friends", FRIENDS_TEXT, Some(GROUP_DEFAULT), FRIENDS_CAPS);
    SeededTier(t2, GROUP_TRUSTED, "howm.trusted", TRUSTED_TEXT, Some(GROUP_FRIENDS), TRUSTED_CAPS)
  }

  datatype Op =
    | Create(id: GroupId, name: string, description: Option<string>, rows: seq<Rule>)
    | Update(id: GroupId, newName: Option<string>, newDescription: Option<Option<string>>, newRows: Option<seq<Rule>>)
    | Delete(id: GroupId)
    | Assign(peer: Octets, id: GroupId)
    | Remove(peer: Octets, id: GroupId)
    | RemoveAll(peer: Octets)
    | Reopen

  /** What an operation leaves in the tables, whether or not it succeeds. */
  function Next(t: Tables, op: Op): Tables {
    match op
    case Create(id, name, description, rows) =>
      if id in t.groups then t
      else t.(groups := t.groups[id := Group(name, false, description, None)], rules := Inserted(t.rules, id, rows))
    case Update(id, name, description, rows) =>
      if id !in t.groups || (t.groups[id].builtIn && rows.Some?) then t
      else
        t.(groups := t.groups[id := Edited(t.groups[id], name, description)],
           rules := if rows.Some? then Inserted(WithoutGroup(t.rules, id), id, rows.value) else t.rules)
    case Delete(id) => if id !in t.groups || t.groups[id].builtIn then t else Deleted(t, id)
    case Assign(peer, id) => if id !in t.groups then t else t.(memberships := t.memberships + {(peer, id)})
    case Remove(peer, id) => t.(memberships := t.memberships - {(peer, id)})
    case RemoveAll(peer) => t.(memberships := set m | m in t.memberships && m.0 != peer)
    case Reopen => Seeded(t)
  }

  // ── The database handle ───────────────────────────────────────────────────

  class AccessDb {
    var groups: map<GroupId, Group>
    var rules: map<(GroupId, Str), bool>
    var memberships: set<(Octets, GroupId)>

    function Contents(): Tables
      reads this
    {
      Tables(groups, rules, memberships)
    }

    /** Opens the stored tables and seeds the built-in groups. */
    constructor Open(stored: Tables)
      ensures Contents() == Seeded(stored)
    {
      groups, rules, memberships := stored.groups, stored.rules, stored.memberships;
      new;
      SeedBuiltInGroups();
    }

    method SeedBuiltInGroups()
      modifies this
      ensures Contents() == Next(old(Contents()), Reopen)
    {
      hide Upserted, SeededRules;
      UpsertGroup(GROUP_DEFAULT, "howm.default", DEFAULT_TEXT, None);
      SeedCapabilityRules(GROUP_DEFAULT, DEFAULT_CAPS);
      UpsertGroup(GROUP_FRIENDS, "howm.friends", FRIENDS_TEXT, Some(GROUP_DEFAULT));
      SeedCapabilityRules(GROUP_FRIENDS, FRIENDS_CAPS);
      UpsertGroup(GROUP_TRUSTED, "howm.trusted", TRUSTED_TEXT, Some(GROUP_FRIENDS));
      SeedCapabilityRules(GROUP_TRUSTED, TRUSTED_CAPS);
    }

    method UpsertGroup(id: GroupId, name: string, description: string, parent: Option<GroupId>)
      modifies this`groups
      ensures groups == Upserted(old(groups), id, name, description, parent)
    {
      if id !in groups {
        groups := groups[id := Group(name, true, Some(description), parent)];
      }
      if parent.Some? && groups[id].parent.None? {
        groups := groups[id := groups[id].(parent := parent)];
      }
    }

    method SeedCapabilityRules(g: GroupId, capabilities: seq<Str>)
      modifies this`rules
      ensures rules == SeededRules(old(rules), g, capabilities)
    {
      for i := 0 to |capabilities|
        invariant rules == SeededRules(old(rules), g, capabilities[..i])
      {
        if (g, capabilities[i]) !in rules {
          rules := rules[(g, capabilities[i]) := true];
        }
        assert forall c :: c in capabilities[..i + 1] <==> c in capabilities[..i] || c == capabilities[i];
      }
      assert capabilities[..|capabilities|] == capabilities;
    }

    /** Stores rows one by one, without a transaction around them. */
    method InsertRules(g: GroupId, rows: seq<Rule>) returns (ok: bool)
      modifies this`rules
      ensures rules == Inserted(old(rules), g, rows)
      ensures ok <==> FitLength(old(rules), g, rows) == |rows|
    {
      for i := 0 to |rows|
        invariant Inserted(rules, g, rows[i..]) == Inserted(old(rules), g, rows)
        invariant FitLength(old(rules), g, rows) == i + FitLength(rules, g, rows[i..])
      {
        assert rows[i..][1..] == rows[i + 1..];
        if (g, rows[i].capability) in rules {
          return false;
        }
        rules := rules[(g, rows[i].capability) := rows[i].allow];
      }
      return true;
    }

    /** `id` is the freshly drawn UUID. */
    method CreateGroup(id: GroupId, name: string, description: Option<string>, rows: seq<Rule>)
      returns (r: Result<Group>)
      modifies this
      ensures Contents() == Next(old(Contents()), Create(id, name, description, rows))
      ensures r.Ok? <==> id !in old(groups) && FitLength(old(rules), id, rows) == |rows|
      ensures r.Ok? ==> r.value == Group(name, false, description, None)
      ensures id !in old(groups) ==> groups == old(groups)[id := Group(name, false, description, None)]
      ensures id in old(groups) ==> groups == old(groups) && rules == old(rules)
      ensures memberships == old(memberships)
    {
      if id in groups {
        return Err;
      }
      groups := groups[id := Group(name, false, description, None)];
      var ok := InsertRules(id, rows);
      if !ok {
        return Err;
      }
      return Ok(groups[id]);
    }

    method UpdateGroup(id: GroupId, name: Option<string>, description: Option<Option<string>>, rows: Option<seq<Rule>>)
      returns (r: Result<Option<Group>>)
      modifies this
      ensures Contents() == Next(old(Contents()), Update(id, name, description, rows))
      ensures id !in old(groups) ==> r == Ok(None)
      ensures id in old(groups) ==>
                (r.Ok? <==>
                 || rows.None?
                 || (!old(groups)[id].builtIn
                     && FitLength(WithoutGroup(old(rules), id), id, rows.value) == |rows.value|))
      ensures id in old(groups) && r.Ok? ==> r.value == Some(Edited(old(groups)[id], name, description))
      ensures groups == if id !in old(groups) || (old(groups)[id].builtIn && rows.Some?) then old(groups)
                        else old(groups)[id := Edited(old(groups)[id], name, description)]
      ensures rows.None? ==> rules == old(rules)
      ensures memberships == old(memberships)
    {
      hide Inserted, FitLength, WithoutGroup;
      if id !in groups {
        return Ok(None);
      }
      if groups[id].builtIn && rows.Some? {
        return Err;
      }
      if name.Some? {
        groups := groups[id := groups[id].(name := name.value)];
      }
      if description.Some? {
        groups := groups[id := groups[id].(description := description.value)];
      }
      if rows.Some? {
        rules := WithoutGroup(rules, id);
        var ok := InsertRules(id, rows.value);
        if !ok {
          return Err;
        }
      }
      return Ok(Some(groups[id]));
    }

    method DeleteGroup(id: GroupId) returns (r: Result<bool>)
      modifies this
      ensures Contents() == Next(old(Contents()), Delete(id))
      ensures r == if id !in old(groups) then Ok(false) else if old(groups)[id].builtIn then Err else Ok(true)
      ensures r != Ok(true) ==> Contents() == old(Contents())
      ensures r == Ok(true) ==>
                && groups.Keys == old(groups).Keys - {id}
                && (forall g :: g in groups ==>
                      groups[g] == old(groups)[g].(parent := if old(groups)[g].parent == Some(id) then None
                                                             else old(groups)[g].parent))
                && rules == old(rules) - (set k | k in old(rules) && k.0 == id)
                && memberships == old(memberships) - (set m | m in old(memberships) && m.1 == id)
    {
      if id !in groups {
        return Ok(false);
      }
      if groups[id].builtIn {
        return Err;
      }
      var after := Deleted(Contents(), id);
      groups, rules, memberships := after.groups, after.rules, after.memberships;
      return Ok(true);
    }

    /** A foreign-key failure is not covered by OR IGNORE. */
    method AssignPeerToGroup(peer: Octets, id: GroupId) returns (ok: bool)
      modifies this`memberships
      ensures Contents() == Next(old(Contents()), Assign(peer, id))
      ensures ok <==> id in groups
      ensures memberships == if id in groups then old(memberships) + {(peer, id)} else old(memberships)
    {
      if id !in groups {
        return false;
      }
      memberships := memberships + {(peer, id)};
      return true;
    }

    method RemovePeerFromGroup(peer: Octets, id: GroupId) returns (removed: bool)
      modifies this`memberships
      ensures Contents() == Next(old(Contents()), Remove(peer, id))
      ensures removed <==> (peer, id) in old(memberships)
      ensures memberships == old(memberships) - {(peer, id)}
    {
      removed := (peer, id) in memberships;
      memberships := memberships - {(peer, id)};
    }

    method RemovePeerFromAllGroups(peer: Octets) returns (removed: nat)
      modifies this`memberships
      ensures Contents() == Next(old(Contents()), RemoveAll(peer))
      ensures removed == |old(memberships)| - |memberships|
      ensures forall m :: m in memberships <==> m in old(memberships) && m.0 != peer
    {
      var kept := set m | m in memberships && m.0 != peer;
      var gone := set m | m in memberships && m.0 == peer;
      assert memberships == kept + gone;
      removed := |gone|;
      memberships := kept;
    }

    method ResolvePermission(peer: Octets, capability: Str) returns (allowed: bool)
      ensures allowed <==> Granted(Contents(), peer, capability)
    {
      var members := CollectMemberGroups(Contents(), peer);
      allowed := exists g :: g in members && Allowing(Contents(), g, capability);
    }
  }

  predicate Closed(t: Tables, done: set<GroupId>, members: set<GroupId>) {
    forall g :: g in done && g in t.groups && t.groups[g].parent.Some? ==> t.groups[g].parent.value in members
  }

  /** Everything found is a member group, and only the parents of `pending` may be missing. */
  ghost predicate Exploring(t: Tables, peer: Octets, pending: set<GroupId>, members: set<GroupId>) {
    && pending <= members
    && (forall g :: Belongs(t, peer, g) ==> g in members)
    && (forall g :: g in members ==> MemberGroup(t, peer, g))
    && Closed(t, members - pending, members)
  }

  lemma VisitOld(t: Tables, peer: Octets, pending: set<GroupId>, members: set<GroupId>, g: GroupId)
    requires Exploring(t, peer, pending, members) && g in pending
    requires g in t.groups && t.groups[g].parent.Some? ==> t.groups[g].parent.value in members
    ensures Exploring(t, peer, pending - {g}, members)
    ensures |pending - {g}| < |pending|
  {
    hide MemberGroup, Belongs;
  }

  lemma ClosedNext(t: Tables, pending: set<GroupId>, members: set<GroupId>, g: GroupId, parent: GroupId)
    requires Closed(t, members - pending, members) && Linked(t, g, parent)
    ensures Closed(t, members + {parent} - (pending - {g} + {parent}), members + {parent})
  {
    forall h | h in members + {parent} - (pending - {g} + {parent}) && h in t.groups && t.groups[h].parent.Some?
      ensures t.groups[h].parent.value in members + {parent}
    {
      assert h == g || h in members - pending;
    }
  }

  lemma VisitNew(t: Tables, peer: Octets, pending: set<GroupId>, members: set<GroupId>, g: GroupId, parent: GroupId)
    requires Exploring(t, peer, pending, members) && g in pending
    requires Linked(t, g, parent) && parent !in members
    ensures Exploring(t, peer, pending - {g} + {parent}, members + {parent})
  {
    hide MemberGroup, Belongs, Closed, Linked;
    ClosedNext(t, pending, members, g, parent);
    MemberGroupStep(t, peer, g, parent);
  }

  ghost function Parents(t: Tables): set<GroupId> {
    set g | g in t.groups && t.groups[g].parent.Some? :: t.groups[g].parent.value
  }

  lemma FewerParentsLeft(t: Tables, members: set<GroupId>, g: GroupId, parent: GroupId)
    requires Linked(t, g, parent) && parent !in members
    ensures |Parents(t) - (members + {parent})| < |Parents(t) - members|
  {
    var parents := Parents(t);
    assert parent in parents by {
      assert t.groups[g].parent.value == parent;
    }
    hide Parents;
    assert parents - (members + {parent}) == (parents - members) - {parent};
  }

  function DirectGroups(t: Tables, peer: Octets): set<GroupId> {
    (set m | m in t.memberships && m.0 == peer :: m.1) + {GROUP_DEFAULT}
  }

  lemma DirectGroupsExplore(t: Tables, peer: Octets)
    ensures Exploring(t, peer, DirectGroups(t, peer), DirectGroups(t, peer))
  {
    forall g: GroupId
      ensures Belongs(t, peer, g) ==> g in DirectGroups(t, peer)
      ensures g in DirectGroups(t, peer) ==> MemberGroup(t, peer, g)
    {
      assert (peer, g) in t.memberships ==> (peer, g).1 in DirectGroups(t, peer);
      ReachesSelf(t, g);
      assert g in DirectGroups(t, peer) ==> Belongs(t, peer, g);
    }
  }

  /** The recursive part of the query: a worklist over parent links, which may be cyclic. */
  method CollectMemberGroups(t: Tables, peer: Octets) returns (members: set<GroupId>)
    ensures forall g :: g in members <==> MemberGroup(t, peer, g)
  {
    members := DirectGroups(t, peer);
    var pending := members;
    DirectGroupsExplore(t, peer);
    hide Exploring, DirectGroups, Parents, MemberGroup;
    while pending != {}
      invariant Exploring(t, peer, pending, members)
      decreases |Parents(t) - members|, |pending|
    {
      var g :| g in pending;
      if g in t.groups && t.groups[g].parent.Some? && t.groups[g].parent.value !in members {
        var parent := t.groups[g].parent.value;
        VisitNew(t, peer, pending, members, g, parent);
        FewerParentsLeft(t, members, g, parent);
        pending := pending - {g} + {parent};
        members := members + {parent};
      } else {
        VisitOld(t, peer, pending, members, g);
        pending := pending - {g};
      }
    }
    ExploredAll(t, peer, members);
  }

  lemma MemberGroupStep(t: Tables, peer: Octets, g: GroupId, parent: GroupId)
    requires MemberGroup(t, peer, g) && Linked(t, g, parent)
    ensures MemberGroup(t, peer, parent)
  {
    var origin :| Belongs(t, peer, origin) && Reaches(t, origin, g);
    ReachesStep(t, origin, g, parent);
  }

  /** A set of groups closed under parent links holds whatever its members reach. */
  lemma {:induction false} ClosedHoldsChain(t: Tables, members: set<GroupId>, path: seq<GroupId>)
    requires Chain(t, path) && path[0] in members && Closed(t, members, members)
    ensures path[|path| - 1] in members
    decreases |path|
  {
    if |path| > 1 {
      assert Linked(t, path[0], path[1]);
      ClosedHoldsChain(t, members, path[1..]);
    }
  }

  lemma ExploredAll(t: Tables, peer: Octets, members: set<GroupId>)
    requires Exploring(t, peer, {}, members)
    ensures forall g :: g in members <==> MemberGroup(t, peer, g)
  {
    assert members - {} == members;
    forall g | MemberGroup(t, peer, g)
      ensures g in members
    {
      var origin :| Belongs(t, peer, origin) && Reaches(t, origin, g);
      var path :| Chain(t, path) && path[0] == origin && path[|path| - 1] == g;
      ClosedHoldsChain(t, members, path);
    }
  }
}
