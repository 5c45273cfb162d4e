/** The voice room store (capabilities/voice/src/state.rs, placeholder rooms of bridge.rs). */
module Rooms {
  import opened Prelude
  import opened Selecting

  datatype Member = Member(peer: string, joinedAt: U64, muted: bool)

  datatype Room = Room(
    name: Option<string>,
    createdBy: string,
    createdAt: U64,
    members: seq<Member>,
    invited: seq<string>,
    maxMembers: nat)

  datatype RoomError = NotFound | NotInvited | Full | NotCreator | NotMember

  datatype Outcome<+T> = Done(value: T) | Refused(error: RoomError)

  // ── Members and invitations ───────────────────────────────────────────────

  predicate IsMember(members: seq<Member>, peer: string) {
    exists i :: 0 <= i < |members| && members[i].peer == peer
  }

  /** `retain` on members. */
  function WithoutMember(members: seq<Member>, peer: string): seq<Member> {
    if members == [] then []
    else (if members[0].peer == peer then [] else [members[0]]) + WithoutMember(members[1..], peer)
  }

  /** `retain` on invitations. */
  function WithoutInvite(invited: seq<string>, peer: string): seq<string> {
    if invited == [] then []
    else (if invited[0] == peer then [] else [invited[0]]) + WithoutInvite(invited[1..], peer)
  }

  predicate DistinctMembers(members: seq<Member>) {
    forall i, j :: 0 <= i < j < |members| ==> members[i].peer != members[j].peer
  }

  predicate Disjoint(room: Room) {
    forall i :: 0 <= i < |room.invited| ==> !IsMember(room.members, room.invited[i])
  }

  lemma {:induction false} WithoutMemberKeeps(members: seq<Member>, peer: string)
    ensures |WithoutMember(members, peer)| <= |members|
    ensures forall m :: m in WithoutMember(members, peer) <==> m in members && m.peer != peer
    ensures DistinctMembers(members) ==> DistinctMembers(WithoutMember(members, peer))
  {
    if members != [] {
      WithoutMemberKeeps(members[1..], peer);
      HeadSplit(members);
      if DistinctMembers(members) {
        assert forall m :: m in members[1..] ==> m.peer != members[0].peer;
      }
    }
  }

  lemma {:induction false} WithoutInviteMembers(invited: seq<string>, peer: string)
    ensures forall i :: i in WithoutInvite(invited, peer) <==> i in invited && i != peer
  {
    if invited != [] {
      WithoutInviteMembers(invited[1..], peer);
      HeadSplit(invited);
    }
  }

  function Not(peer: string): string -> bool {
    p => p != peer
  }

  function NotOf(peer: string): Member -> bool {
    (m: Member) => m.peer != peer
  }

  /** Leaving takes out the peer's entries and nothing else. */
  lemma {:induction false} WithoutMemberSelects(members: seq<Member>, peer: string)
    ensures Selects(members, WithoutMember(members, peer), NotOf(peer))
  {
    hide Selects;
    SelectsNone(NotOf(peer));
    if members != [] {
      WithoutMemberSelects(members[1..], peer);
      HeadSplit(members);
      SelectsCons(members[0], members[1..], WithoutMember(members[1..], peer), NotOf(peer));
    }
  }

  lemma {:induction false} WithoutInviteSelects(invited: seq<string>, peer: string)
    ensures Selects(invited, WithoutInvite(invited, peer), Not(peer))
  {
    hide Selects;
    SelectsNone(Not(peer));
    if invited != [] {
      WithoutInviteSelects(invited[1..], peer);
      HeadSplit(invited);
      SelectsCons(invited[0], invited[1..], WithoutInvite(invited[1..], peer), Not(peer));
    }
  }

  lemma IsMemberIn(members: seq<Member>, peer: string)
    ensures IsMember(members, peer) <==> exists m :: m in members && m.peer == peer
  {
  }

  // ── What a stored room keeps ──────────────────────────────────────────────

  /** Pairwise distinct members, at most the limit and the creator's own place. */
  predicate WellFormed(room: Room) {
    && DistinctMembers(room.members)
    && |room.members| <= (if room.maxMembers > 1 then room.maxMembers else 1)
  }

  /** An invited placeholder for a room that lives elsewhere: anyone local may join. */
  predicate IsPlaceholder(room: Room) {
    room.members == [] && room.invited != []
  }

  function Left(room: Room, peer: string): Room {
    room.(members := WithoutMember(room.members, peer))
  }

  function Joined(room: Room, peer: string, now: U64): Room {
    room.(invited := WithoutInvite(room.invited, peer), members := room.members + [Member(peer, now, false)])
  }

  lemma LeftKeeps(room: Room, peer: string)
    requires WellFormed(room)
    ensures WellFormed(Left(room, peer))
    ensures Disjoint(room) ==> Disjoint(Left(room, peer))
    ensures !IsMember(Left(room, peer).members, peer)
  {
    WithoutMemberKeeps(room.members, peer);
    forall p | IsMember(Left(room, peer).members, p)
      ensures IsMember(room.members, p) && p != peer
    {
      IsMemberIn(room.members, p);
    }
  }

  lemma JoinedKeeps(room: Room, peer: string, now: U64)
    requires WellFormed(room) && |room.members| < room.maxMembers && !IsMember(room.members, peer)
    ensures WellFormed(Joined(room, peer, now))
    ensures Disjoint(room) ==> Disjoint(Joined(room, peer, now))
  {
    WithoutInviteMembers(room.invited, peer);
    var joined := Joined(room, peer, now);
    if Disjoint(room) {
      forall i | 0 <= i < |joined.invited|
        ensures !IsMember(joined.members, joined.invited[i])
      {
        var p := joined.invited[i];
        assert p in joined.invited;
        assert !IsMember(room.members, p);
      }
    }
  }

  /** Adds the peers that are neither invited nor members, one by one. */
  function WithInvites(room: Room, peers: seq<string>): Room {
    if peers == [] then room
    else
      var before, p := WithInvites(room, peers[..|peers| - 1]), peers[|peers| - 1];
      if p !in before.invited && !IsMember(before.members, p) then before.(invited := before.invited + [p]) else before
  }

  lemma {:induction false} WithInvitesKeeps(room: Room, peers: seq<string>)
    ensures WithInvites(room, peers) == room.(invited := WithInvites(room, peers).invited)
    ensures Disjoint(room) ==> Disjoint(WithInvites(room, peers))
    ensures forall p :: p in WithInvites(room, peers).invited <==>
              p in room.invited || (p in peers && !IsMember(room.members, p))
  {
    if peers != [] {
      WithInvitesKeeps(room, peers[..|peers| - 1]);
      LastSplit(peers);
    }
  }

  /** Neither invited nor a member, and mentioned here first. */
  predicate NewAt(room: Room, peers: seq<string>, k: nat)
    requires k < |peers|
  {
    peers[k] !in room.invited && !IsMember(room.members, peers[k]) && peers[k] !in peers[..k]
  }

  ghost predicate NewPlaces(room: Room, peers: seq<string>, places: seq<int>) {
    forall k :: k in places <==> 0 <= k < |peers| && NewAt(room, peers, k)
  }

  /** The peers that are neither invited nor members, each at its first mention and in the order mentioned. */
  ghost predicate Additions(room: Room, peers: seq<string>, added: seq<string>) {
    exists places :: Increasing(places) && NewPlaces(room, peers, places) && ReadsOff(peers, places, added)
  }

  lemma WithInvitesStep(room: Room, peers: seq<string>)
    requires peers != []
    ensures var n := |peers| - 1;
            WithInvites(room, peers).invited
            == WithInvites(room, peers[..n]).invited + if NewAt(room, peers, n) then [peers[n]] else []
  {
    hide IsMember;
    WithInvitesKeeps(room, peers[..|peers| - 1]);
    var before := WithInvites(room, peers[..|peers| - 1]).invited;
    assert before + [] == before;
  }

  lemma {:induction false} WithInvitesAdds(room: Room, peers: seq<string>)
    ensures exists added :: Additions(room, peers, added)
                            && WithInvites(room, peers) == room.(invited := room.invited + added)
  {
    WithInvitesKeeps(room, peers);
    if peers == [] {
      assert Increasing([]) && NewPlaces(room, [], []) && ReadsOff<string>([], [], []);
      assert Additions(room, [], []);
      assert room.invited + [] == room.invited;
    } else {
      hide NewAt, Additions, WithInvites;
      var n := |peers| - 1;
      WithInvitesAdds(room, peers[..n]);
      var added :| Additions(room, peers[..n], added)
                   && WithInvites(room, peers[..n]) == room.(invited := room.invited + added);
      AdditionsNext(room, peers, added);
    }
  }

  lemma AdditionsNext(room: Room, peers: seq<string>, added: seq<string>)
    requires peers != [] && Additions(room, peers[..|peers| - 1], added)
    requires WithInvites(room, peers[..|peers| - 1]) == room.(invited := room.invited + added)
    ensures var more := if NewAt(room, peers, |peers| - 1) then added + [peers[|peers| - 1]] else added;
            Additions(room, peers, more) && WithInvites(room, peers) == room.(invited := room.invited + more)
  {
    hide NewAt, Additions, WithInvites;
    AdditionsSnoc(room, peers, added);
    WithInvitesKeeps(room, peers);
    WithInvitesStep(room, peers);
    Associative(room.invited, added, [peers[|peers| - 1]]);
    assert room.invited + added + [] == room.invited + added;
  }

  lemma NewAtPrefix(room: Room, peers: seq<string>, n: nat, k: nat)
    requires k < n <= |peers|
    ensures NewAt(room, peers[..n], k) <==> NewAt(room, peers, k)
  {
    assert peers[..n][..k] == peers[..k];
  }

  lemma NewPlacesSnoc(room: Room, peers: seq<string>, places: seq<int>)
    requires peers != [] && NewPlaces(room, peers[..|peers| - 1], places)
    ensures var n := |peers| - 1;
            NewPlaces(room, peers, if NewAt(room, peers, n) then places + [n] else places)
  {
    var n := |peers| - 1;
    forall k | 0 <= k < n
      ensures NewAt(room, peers[..n], k) <==> NewAt(room, peers, k)
    {
      NewAtPrefix(room, peers, n, k);
    }
    hide NewAt;
    forall k: int
      ensures k in places + [n] <==> k in places || k == n
    {
      SnocMember(k, places, n);
    }
  }

  lemma AdditionsSnoc(room: Room, peers: seq<string>, added: seq<string>)
    requires peers != [] && Additions(room, peers[..|peers| - 1], added)
    ensures Additions(room, peers, if NewAt(room, peers, |peers| - 1) then added + [peers[|peers| - 1]] else added)
  {
    hide NewAt;
    var n := |peers| - 1;
    var places :| Increasing(places) && NewPlaces(room, peers[..n], places) && ReadsOff(peers[..n], places, added);
    NewPlacesSnoc(room, peers, places);
    hide NewPlaces;
    assert ReadsOff(peers, places, added);
    if NewAt(room, peers, n) {
      assert Increasing(places + [n]) && ReadsOff(peers, places + [n], added + [peers[n]]);
    }
  }

  // ── Removing a peer everywhere, on values ─────────────────────────────────

  /** The last member's departure removes the room. */
  predicate Empties(room: Room, peer: string) {
    WithoutMember(room.members, peer) == []
  }

  /** A departure empties a room in which there is nobody else, a room with no members included. */
  lemma EmptiesWhen(room: Room, peer: string)
    ensures Empties(room, peer) <==> forall m :: m in room.members ==> m.peer == peer
  {
    WithoutMemberKeeps(room.members, peer);
    assert Empties(room, peer) || WithoutMember(room.members, peer)[0] in WithoutMember(room.members, peer);
  }

  /** The rooms after `peer` has left those in `ids`. */
  function LeftRooms(rooms: map<string, Room>, peer: string, ids: set<string>): map<string, Room> {
    map id | id in rooms && !(id in ids && Empties(rooms[id], peer)) ::
      if id in ids then Left(rooms[id], peer) else rooms[id]
  }

  function RoomsOf(rooms: map<string, Room>, peer: string): set<string> {
    set id | id in rooms && IsMember(rooms[id].members, peer)
  }

  /** What `leave_room` does to the map. */
  function LeaveOne(rooms: map<string, Room>, peer: string, id: string): map<string, Room>
    requires id in rooms
  {
    if Empties(rooms[id], peer) then rooms - {id} else rooms[id := Left(rooms[id], peer)]
  }

  /** Leaving the rooms of a list one after the other, with the destroyed flags. */
  function LeaveEach(rooms: map<string, Room>, peer: string, ids: seq<string>)
    : (map<string, Room>, seq<(string, bool)>) {
    if ids == [] then (rooms, [])
    else
      var (before, flags) := LeaveEach(rooms, peer, ids[..|ids| - 1]);
      var id := ids[|ids| - 1];
      if id !in before then (before, flags)
      else (LeaveOne(before, peer, id), flags + [(id, Empties(before[id], peer))])
  }

  lemma LeftRoomsStep(rooms: map<string, Room>, peer: string, ids: set<string>, id: string)
    requires id in rooms && id !in ids
    ensures id in LeftRooms(rooms, peer, ids) && LeftRooms(rooms, peer, ids)[id] == rooms[id]
    ensures LeaveOne(LeftRooms(rooms, peer, ids), peer, id) == LeftRooms(rooms, peer, ids + {id})
  {
    hide WithoutMember;
  }

  /** Leaving rooms in any order comes to the same, and reports for each whether it emptied the room. */
  lemma {:induction false} LeaveEachIs(rooms: map<string, Room>, peer: string, ids: seq<string>)
    requires Distinct(ids) && forall id :: id in ids ==> id in rooms
    ensures LeaveEach(rooms, peer, ids).0 == LeftRooms(rooms, peer, (set id | id in ids))
    ensures |LeaveEach(rooms, peer, ids).1| == |ids|
    ensures forall k :: 0 <= k < |ids| ==> LeaveEach(rooms, peer, ids).1[k] == (ids[k], Empties(rooms[ids[k]], peer))
  {
    hide Empties, Left;
    if ids == [] {
      assert LeftRooms(rooms, peer, (set id | id in ids)) == rooms;
    } else {
      var n := |ids| - 1;
      LeaveEachIs(rooms, peer, ids[..n]);
      LastSplit(ids);
      assert ids[n] !in ids[..n];
      assert (set id | id in ids) == (set id | id in ids[..n]) + {ids[n]};
      LeftRoomsStep(rooms, peer, (set id | id in ids[..n]), ids[n]);
    }
  }

  // ── The store ─────────────────────────────────────────────────────────────

  /** Every room is well-formed, and those created here have members. */
  ghost predicate Kept(rooms: map<string, Room>, created: set<string>) {
    && (forall id :: id in rooms ==> WellFormed(rooms[id]))
    && (forall id :: id in created ==> id in rooms && rooms[id].members != [])
  }

  ghost predicate AllDisjoint(rooms: map<string, Room>) {
    forall id :: id in rooms ==> Disjoint(rooms[id])
  }

  lemma StoreKeeps(rooms: map<string, Room>, created: set<string>, id: string, room: Room)
    requires Kept(rooms, created) && WellFormed(room) && (id in created ==> room.members != [])
    ensures Kept(rooms[id := room], created)
    ensures AllDisjoint(rooms) && Disjoint(room) ==> AllDisjoint(rooms[id := room])
  {
    hide WellFormed, Disjoint;
  }

  lemma RemoveKeeps(rooms: map<string, Room>, created: set<string>, gone: set<string>)
    requires Kept(rooms, created)
    ensures Kept(rooms - gone, created - gone)
    ensures AllDisjoint(rooms) ==> AllDisjoint(rooms - gone)
  {
    hide WellFormed, Disjoint;
  }

  function JoinOutcome(rooms: map<string, Room>, id: string, peer: string, now: U64): Outcome<Room> {
    if id !in rooms then Refused(NotFound)
    else
      var room := rooms[id];
      if !IsPlaceholder(room) && peer !in room.invited then Refused(NotInvited)
      else if |room.members| >= room.maxMembers then Refused(Full)
      else if IsMember(room.members, peer) then Done(room)
      else Done(Joined(room, peer, now))
  }

  /** Who is refused and why, and what a join leaves. */
  lemma JoinIs(rooms: map<string, Room>, id: string, peer: string, now: U64)
    ensures JoinOutcome(rooms, id, peer, now) == Refused(NotFound) <==> id !in rooms
    ensures id in rooms ==>
              var room, r := rooms[id], JoinOutcome(rooms, id, peer, now);
              var welcome := peer in room.invited || (room.members == [] && room.invited != []);
              && (r == Refused(NotInvited) <==> !welcome)
              && (r == Refused(Full) <==> welcome && |room.members| >= room.maxMembers)
              && (r.Done? && IsMember(room.members, peer) ==> r.value == room)
              && (r.Done? && !IsMember(room.members, peer) ==>
                    && Selects(room.invited, r.value.invited, Not(peer))
                    && r.value == Room(room.name, room.createdBy, room.createdAt,
                                       room.members + [Member(peer, now, false)], r.value.invited, room.maxMembers))
  {
    hide Selects;
    if id in rooms {
      WithoutInviteSelects(rooms[id].invited, peer);
    }
  }

  /** Without overlap a successful join always adds the peer and uses up its invitation. */
  lemma JoinAdds(rooms: map<string, Room>, id: string, peer: string, now: U64)
    requires id in rooms && Disjoint(rooms[id])
    ensures JoinOutcome(rooms, id, peer, now).Done? <==>
            (rooms[id].members == [] || peer in rooms[id].invited) && rooms[id].invited != []
                && |rooms[id].members| < rooms[id].maxMembers
    ensures JoinOutcome(rooms, id, peer, now).Done? ==>
              var room := JoinOutcome(rooms, id, peer, now).value;
              && !IsMember(rooms[id].members, peer) && IsMember(room.members, peer)
              && |room.members| == |rooms[id].members| + 1 && peer !in room.invited
  {
    WithoutInviteMembers(rooms[id].invited, peer);
    if JoinOutcome(rooms, id, peer, now).Done? {
      var room := JoinOutcome(rooms, id, peer, now).value;
      assert !IsMember(rooms[id].members, peer);
      assert room.members[|rooms[id].members|].peer == peer;
    }
  }

  const U64_SIZE := 0x1_0000_0000_0000_0000

  /** Subtraction in wrapping 64-bit arithmetic. */
  function Age(now: U64, createdAt: U64): U64 {
    (now - createdAt) % U64_SIZE
  }

  predicate Stale(room: Room, now: U64, timeout: U64) {
    room.members == [] && Age(now, room.createdAt) >= timeout
  }

  /** An empty room goes from `timeout` after its creation on; one created in the future wraps around. */
  lemma StaleMeans(room: Room, now: U64, timeout: U64)
    ensures room.createdAt <= now ==>
              (Stale(room, now, timeout) <==> room.members == [] && room.createdAt + timeout <= now)
    ensures room.createdAt > now ==>
              (Stale(room, now, timeout)
               <==> room.members == [] && room.createdAt + timeout <= now + 0x1_0000_0000_0000_0000)
  {
  }

  /** Invitations expire once more than `timeout` has passed since the room was created. */
  lemma ExpiredMeans(room: Room, now: U64, timeout: U64)
    ensures Expired(room, now, timeout) <==> room.invited != [] && now > room.createdAt + timeout
  {
  }

  predicate Expired(room: Room, now: U64, timeout: U64) {
    now >= room.createdAt && now - room.createdAt > timeout && room.invited != []
  }

  /** The rooms once the expired invitations of those in `done` are gone. */
  function WithoutExpired(rooms: map<string, Room>, done: set<string>, now: U64, timeout: U64): map<string, Room> {
    map id | id in rooms ::
      if id in done && Expired(rooms[id], now, timeout) then rooms[id].(invited := []) else rooms[id]
  }

  /** The expired invitations of the rooms in `done`, each by its room and its place in the list. */
  function ExpiredPlaces(rooms: map<string, Room>, done: set<string>, now: U64, timeout: U64): set<(string, int)> {
    set id, i | id in done && id in rooms && Expired(rooms[id], now, timeout) && 0 <= i < |rooms[id].invited| :: (id, i)
  }

  function Places(id: string, n: nat): set<(string, int)> {
    set i | 0 <= i < n :: (id, i)
  }

  lemma {:induction false} PlacesCount(id: string, n: nat)
    ensures |Places(id, n)| == n
  {
    if n == 0 {
      assert Places(id, 0) == {};
    } else {
      PlacesCount(id, n - 1);
      assert Places(id, n) == Places(id, n - 1) + {(id, n - 1)};
    }
  }

  lemma NothingExpired(rooms: map<string, Room>, now: U64, timeout: U64)
    ensures WithoutExpired(rooms, {}, now, timeout) == rooms && ExpiredPlaces(rooms, {}, now, timeout) == {}
  {
  }

  lemma OneMoreExpired(rooms: map<string, Room>, done: set<string>, id: string, now: U64, timeout: U64)
    requires id in rooms && id !in done
    ensures var before := WithoutExpired(rooms, done, now, timeout);
            && id in before && before[id] == rooms[id]
            && WithoutExpired(rooms, done + {id}, now, timeout)
               == if Expired(rooms[id], now, timeout) then before[id := rooms[id].(invited := [])] else before
  {
    hide Expired;
  }

  lemma OneMoreCounted(rooms: map<string, Room>, done: set<string>, id: string, now: U64, timeout: U64)
    requires id in rooms && id !in done
    ensures |ExpiredPlaces(rooms, done + {id}, now, timeout)|
            == |ExpiredPlaces(rooms, done, now, timeout)|
               + if Expired(rooms[id], now, timeout) then |rooms[id].invited| else 0
  {
    hide Expired;
    var counted := ExpiredPlaces(rooms, done, now, timeout);
    var added := if Expired(rooms[id], now, timeout) then Places(id, |rooms[id].invited|) else {};
    assert ExpiredPlaces(rooms, done + {id}, now, timeout) == counted + added;
    assert counted !! added;
    PlacesCount(id, |rooms[id].invited|);
  }

  lemma WithoutExpiredKeeps(rooms: map<string, Room>, created: set<string>, now: U64, timeout: U64)
    ensures Kept(rooms, created) ==> Kept(WithoutExpired(rooms, rooms.Keys, now, timeout), created)
    ensures AllDisjoint(rooms) ==> AllDisjoint(WithoutExpired(rooms, rooms.Keys, now, timeout))
    ensures WithoutExpired(rooms, rooms.Keys, now, timeout).Keys == rooms.Keys
  {
  }

  function Created(creator: string, name: Option<string>, invited: seq<string>, limit: nat, now: U64): Room {
    Room(name, creator, now, [Member(creator, now, false)], invited, limit)
  }

  /** A new room keeps invited and members apart exactly when the creator does not invite itself. */
  lemma CreatedDisjoint(creator: string, name: Option<string>, invited: seq<string>, limit: nat, now: U64)
    ensures WellFormed(Created(creator, name, invited, limit, now))
    ensures Disjoint(Created(creator, name, invited, limit, now)) <==> creator !in invited
  {
    var room := Created(creator, name, invited, limit, now);
    assert room.members[0].peer == creator;
    assert forall p :: IsMember(room.members, p) <==> p == creator;
  }

  class RoomStore {
    var rooms: map<string, Room>
    const maxRoomSize: nat
    const roomTimeout: U64
    const inviteTimeout: U64
    /** The stored rooms that were created here. */
    ghost var created: set<string>

    ghost predicate Valid()
      reads this
    {
      Kept(rooms, created)
    }

    /** The stored rooms that came in as invitations. */
    ghost function Remote(): set<string>
      reads this
    {
      rooms.Keys - created
    }

    constructor (maxRoomSize: nat, roomTimeout: U64, inviteTimeout: U64)
      ensures Valid() && AllDisjoint(rooms) && rooms == map[] && created == {}
      ensures this.maxRoomSize == maxRoomSize && this.roomTimeout == roomTimeout && this.inviteTimeout == inviteTimeout
    {
      rooms, created := map[], {};
      this.maxRoomSize, this.roomTimeout, this.inviteTimeout := maxRoomSize, roomTimeout, inviteTimeout;
    }

    /** `id` is the freshly drawn UUID. */
    method CreateRoom(id: string, creator: string, name: Option<string>, invited: seq<string>,
                      maxMembers: Option<nat>, now: U64)
      returns (room: Room)
      requires Valid()
      modifies this
      ensures Valid() && Remote() <= old(Remote())
      ensures room == Created(creator, name, invited, if maxMembers.Some? then maxMembers.value else maxRoomSize, now)
      ensures room == Room(name, creator, now, [Member(creator, now, false)], invited,
                           if maxMembers.Some? then maxMembers.value else maxRoomSize)
      ensures rooms == old(rooms)[id := room]
      ensures old(AllDisjoint(rooms)) && creator !in invited ==> AllDisjoint(rooms)
    {
      hide WellFormed, Disjoint;
      var limit := if maxMembers.Some? then maxMembers.value else maxRoomSize;
      room := Created(creator, name, invited, limit, now);
      CreatedDisjoint(creator, name, invited, limit, now);
      StoreKeeps(rooms, created, id, room);
      rooms := rooms[id := room];
      created := created + {id};
    }

    /** An invitation from another node, whose own room is not here: stored as a placeholder. */
    method ReceiveInvite(id: string, inviter: string, name: Option<string>, fromPeer: string, now: U64)
      requires Valid()
      modifies this
      ensures Valid() && Remote() <= old(Remote()) + {id}
      ensures rooms == old(rooms)[id := if id in old(rooms) then WithInvites(old(rooms)[id], [fromPeer])
                                        else Room(name, inviter, now, [], [fromPeer], 10)]
      ensures old(AllDisjoint(rooms)) ==> AllDisjoint(rooms)
    {
      if id in rooms {
        var _ := InvitePeers(id, [fromPeer]);
      } else {
        var room := Room(name, inviter, now, [], [fromPeer], 10);
        StoreKeeps(rooms, created, id, room);
        rooms := rooms[id := room];
      }
    }

    method JoinRoom(id: string, peer: string, now: U64) returns (r: Outcome<Room>)
      requires Valid()
      modifies this`rooms
      ensures Valid() && Remote() == old(Remote())
      ensures r == JoinOutcome(old(rooms), id, peer, now)
      ensures rooms == if r.Done? then old(rooms)[id := r.value] else old(rooms)
      ensures old(AllDisjoint(rooms)) ==> AllDisjoint(rooms)
    {
      hide WellFormed, Disjoint;
      if id !in rooms {
        return Refused(NotFound);
      }
      var room := rooms[id];
      if !IsPlaceholder(room) && peer !in room.invited {
        return Refused(NotInvited);
      }
      if |room.members| >= room.maxMembers {
        return Refused(Full);
      }
      if IsMember(room.members, peer) {
        assert rooms == rooms[id := room];
        return Done(room);
      }
      JoinedKeeps(room, peer, now);
      StoreKeeps(rooms, created, id, Joined(room, peer, now));
      rooms := rooms[id := Joined(room, peer, now)];
      return Done(Joined(room, peer, now));
    }

    method LeaveRoom(id: string, peer: string) returns (r: Outcome<bool>)
      requires Valid()
      modifies this
      ensures Valid() && Remote() <= old(Remote())
      ensures r == if id !in old(rooms) then Refused(NotFound) else Done(Empties(old(rooms)[id], peer))
      ensures rooms == if id in old(rooms) then LeaveOne(old(rooms), peer, id) else old(rooms)
      ensures old(AllDisjoint(rooms)) ==> AllDisjoint(rooms)
    {
      hide WellFormed, Disjoint, WithoutMember;
      if id !in rooms {
        return Refused(NotFound);
      }
      var room := Left(rooms[id], peer);
      LeftKeeps(rooms[id], peer);
      if room.members == [] {
        RemoveKeeps(rooms, created, {id});
        rooms := rooms - {id};
        created := created - {id};
        return Done(true);
      }
      StoreKeeps(rooms, created, id, room);
      rooms := rooms[id := room];
      return Done(false);
    }

    method CloseRoom(id: string, peer: string) returns (r: Outcome<Room>)
      requires Valid()
      modifies this
      ensures Valid() && Remote() <= old(Remote())
      ensures r == if id !in old(rooms) then Refused(NotFound)
                   else if old(rooms)[id].createdBy != peer then Refused(NotCreator)
                   else Done(old(rooms)[id])
      ensures rooms == if r.Done? then old(rooms) - {id} else old(rooms)
      ensures old(AllDisjoint(rooms)) ==> AllDisjoint(rooms)
    {
      hide WellFormed, Disjoint;
      if id !in rooms {
        return Refused(NotFound);
      }
      if rooms[id].createdBy != peer {
        return Refused(NotCreator);
      }
      r := Done(rooms[id]);
      RemoveKeeps(rooms, created, {id});
      rooms := rooms - {id};
      created := created - {id};
    }

    method InvitePeers(id: string, peers: seq<string>) returns (r: Outcome<Room>)
      requires Valid()
      modifies this`rooms
      ensures Valid() && Remote() == old(Remote())
      ensures r == if id !in old(rooms) then Refused(NotFound) else Done(WithInvites(old(rooms)[id], peers))
      ensures rooms == if r.Done? then old(rooms)[id := r.value] else old(rooms)
      ensures old(AllDisjoint(rooms)) ==> AllDisjoint(rooms)
    {
      if id !in rooms {
        return Refused(NotFound);
      }
      var room := rooms[id];
      for i := 0 to |peers|
        invariant room == WithInvites(rooms[id], peers[..i])
      {
        hide IsMember;
        assert peers[..i + 1][..i] == peers[..i];
        if peers[i] !in room.invited && !IsMember(room.members, peers[i]) {
          room := room.(invited := room.invited + [peers[i]]);
        }
      }
      assert peers[..|peers|] == peers;
      WithInvitesKeeps(rooms[id], peers);
      hide Disjoint, IsMember;
      StoreKeeps(rooms, created, id, room);
      rooms := rooms[id := room];
      return Done(room);
    }

    method SetMute(id: string, peer: string, muted: bool) returns (r: Outcome<Room>)
      requires Valid()
      modifies this`rooms
      ensures Valid() && Remote() == old(Remote())
      ensures id !in old(rooms) ==> r == Refused(NotFound)
      ensures id in old(rooms)
              ==> (r.Done? <==> IsMember(old(rooms)[id].members, peer)) && (r.Refused? ==> r.error == NotMember)
      ensures r.Done? ==> Muted(old(rooms)[id], r.value, peer, muted)
      ensures rooms == if r.Done? then old(rooms)[id := r.value] else old(rooms)
      ensures old(AllDisjoint(rooms)) ==> AllDisjoint(rooms)
    {
      if id !in rooms {
        return Refused(NotFound);
      }
      var members := rooms[id].members;
      for i := 0 to |members|
        invariant rooms == old(rooms)
        invariant forall j :: 0 <= j < i ==> members[j].peer != peer
      {
        if members[i].peer == peer {
          var room := rooms[id].(members := members[i := members[i].(muted := muted)]);
          MutedKeeps(rooms[id], room, peer, muted);
          hide WellFormed, Disjoint;
          StoreKeeps(rooms, created, id, room);
          rooms := rooms[id := room];
          return Done(room);
        }
      }
      return Refused(NotMember);
    }

    method CleanupStaleRooms(now: U64) returns (removed: nat)
      requires Valid()
      modifies this
      ensures Valid() && Remote() <= old(Remote())
      ensures rooms == map id | id in old(rooms) && !Stale(old(rooms)[id], now, roomTimeout) :: old(rooms)[id]
      ensures removed == |old(rooms)| - |rooms|
      ensures old(AllDisjoint(rooms)) ==> AllDisjoint(rooms)
    {
      hide WellFormed, Disjoint;
      var gone := set id | id in rooms && Stale(rooms[id], now, roomTimeout);
      RemoveKeeps(rooms, created, gone);
      removed := |gone|;
      assert rooms.Keys == (rooms - gone).Keys + gone;
      assert created - gone == created;
      rooms := rooms - gone;
    }

    /** Room by room, in any order; returns how many invitations went. */
    method CleanupExpiredInvites(now: U64) returns (total: nat)
      requires Valid()
      modifies this`rooms
      ensures Valid() && Remote() == old(Remote())
      ensures rooms == WithoutExpired(old(rooms), old(rooms).Keys, now, inviteTimeout)
      ensures total == |ExpiredPlaces(old(rooms), old(rooms).Keys, now, inviteTimeout)|
      ensures old(AllDisjoint(rooms)) ==> AllDisjoint(rooms)
    {
      hide ExpiredPlaces, WithoutExpired, Expired, Kept, AllDisjoint;
      ghost var before, done := rooms, {};
      var pending := rooms.Keys;
      total := 0;
      NothingExpired(before, now, inviteTimeout);
      while pending != {}
        invariant pending <= before.Keys && done == before.Keys - pending
        invariant rooms == WithoutExpired(before, done, now, inviteTimeout)
        invariant total == |ExpiredPlaces(before, done, now, inviteTimeout)|
      {
        var id :| id in pending;
        assert before.Keys - (pending - {id}) == done + {id};
        OneMoreExpired(before, done, id, now, inviteTimeout);
        OneMoreCounted(before, done, id, now, inviteTimeout);
        if Expired(rooms[id], now, inviteTimeout) {
          total := total + |rooms[id].invited|;
          rooms := rooms[id := rooms[id].(invited := [])];
        }
        pending := pending - {id};
        done := done + {id};
      }
      assert done == before.Keys;
      WithoutExpiredKeeps(before, created, now, inviteTimeout);
    }

    /** One pass over the rooms, then the removal of the emptied ones. */
    method RemovePeerFromAll(peer: string) returns (affected: seq<(string, bool)>)
      requires Valid()
      modifies this
      ensures Valid() && Remote() <= old(Remote())
      ensures rooms == LeftRooms(old(rooms), peer, RoomsOf(old(rooms), peer))
      ensures Reported(old(rooms), peer, RoomsOf(old(rooms), peer), affected)
      ensures old(AllDisjoint(rooms)) ==> AllDisjoint(rooms)
    {
      hide RoomsOf, Left, Reported, Empties, Kept, AllDisjoint;
      ghost var ids, before := RoomsOf(rooms, peer), rooms;
      var toRemove;
      affected, toRemove := ThinRooms(peer);
      ghost var gone := set id | id in toRemove;
      LeftRoomsKeep(before, created, peer, ids, gone);
      created := created - gone;
      DropRooms(toRemove);
    }

    method ThinRooms(peer: string) returns (affected: seq<(string, bool)>, toRemove: seq<string>)
      modifies this`rooms
      ensures Visited(old(rooms), peer, RoomsOf(old(rooms), peer), rooms, affected, toRemove)
    {
      hide RoomsOf, Left, Empties, Visited;
      affected, toRemove := [], [];
      var pending := rooms.Keys;
      ghost var before, done := rooms, {};
      NothingVisited(before, peer);
      while pending != {}
        invariant pending <= before.Keys && done == RoomsOf(before, peer) - pending
        invariant Visited(before, peer, done, rooms, affected, toRemove)
      {
        var id :| id in pending;
        VisitedUntouched(before, peer, done, rooms, affected, toRemove, id);
        RoomsOfHas(before, peer, id);
        if IsMember(rooms[id].members, peer) {
          VisitMember(before, peer, done, rooms, affected, toRemove, id);
          rooms := rooms[id := Left(rooms[id], peer)];
          if rooms[id].members == [] {
            toRemove := toRemove + [id];
            affected := affected + [(id, true)];
          } else {
            affected := affected + [(id, false)];
          }
          done := done + {id};
        }
        pending := pending - {id};
      }
      assert done == RoomsOf(before, peer);
    }

    method DropRooms(ids: seq<string>)
      modifies this`rooms
      ensures rooms == old(rooms) - (set id | id in ids)
    {
      for i := 0 to |ids|
        invariant rooms == old(rooms) - (set id | id in ids[..i])
      {
        rooms := rooms - {ids[i]};
        LastSplit(ids[..i + 1]);
      }
    }
  }

  /** The rooms after the first pass over those in `done`. */
  function Thinned(rooms: map<string, Room>, peer: string, done: set<string>): map<string, Room> {
    map id | id in rooms :: if id in done then Left(rooms[id], peer) else rooms[id]
  }

  /** Each room of `done` is reported once, with whether it was emptied. */
  ghost predicate Reported(rooms: map<string, Room>, peer: string, done: set<string>, affected: seq<(string, bool)>) {
    && |affected| == |done|
    && (forall k :: 0 <= k < |affected| ==> affected[k].0 in done)
    && (forall k :: 0 <= k < |affected| && affected[k].0 in rooms ==>
          affected[k].1 == Empties(rooms[affected[k].0], peer))
    && (forall j, k :: 0 <= j < k < |affected| ==> affected[j].0 != affected[k].0)
  }

  /** Where the first pass stands once it has thinned the rooms of `done`. */
  ghost predicate Visited(before: map<string, Room>, peer: string, done: set<string>, rooms: map<string, Room>,
                          affected: seq<(string, bool)>, toRemove: seq<string>)
  {
    && rooms == Thinned(before, peer, done)
    && Reported(before, peer, done, affected)
    && (forall id :: id in toRemove <==> id in done && id in before && Empties(before[id], peer))
  }

  lemma NothingVisited(rooms: map<string, Room>, peer: string)
    ensures Visited(rooms, peer, {}, rooms, [], []) && RoomsOf(rooms, peer) - rooms.Keys == {}
  {
  }

  lemma VisitedUntouched(before: map<string, Room>, peer: string, done: set<string>, rooms: map<string, Room>,
                         affected: seq<(string, bool)>, toRemove: seq<string>, id: string)
    requires Visited(before, peer, done, rooms, affected, toRemove) && id in before
    ensures id in rooms && (id !in done ==> rooms[id] == before[id])
  {
  }

  lemma VisitMember(before: map<string, Room>, peer: string, done: set<string>, rooms: map<string, Room>,
                    affected: seq<(string, bool)>, toRemove: seq<string>, id: string)
    requires Visited(before, peer, done, rooms, affected, toRemove) && id in before && id !in done && id in rooms
    ensures var e := Empties(before[id], peer);
            && (e <==> Left(rooms[id], peer).members == [])
            && Visited(before, peer, done + {id}, rooms[id := Left(rooms[id], peer)], affected + [(id, e)],
                       if e then toRemove + [id] else toRemove)
  {
    hide Reported, WithoutMember;
    ReportedNext(before, peer, done, affected, id);
  }

  lemma LeftRoomsKeep(rooms: map<string, Room>, created: set<string>, peer: string, ids: set<string>, gone: set<string>)
    requires Kept(rooms, created)
    requires forall id :: id in gone <==> id in ids && id in rooms && Empties(rooms[id], peer)
    ensures LeftRooms(rooms, peer, ids) == Thinned(rooms, peer, ids) - gone
    ensures Kept(LeftRooms(rooms, peer, ids), created - gone)
    ensures AllDisjoint(rooms) ==> AllDisjoint(LeftRooms(rooms, peer, ids))
  {
    hide WellFormed, Disjoint;
    forall id | id in rooms
      ensures WellFormed(Left(rooms[id], peer))
      ensures Disjoint(rooms[id]) ==> Disjoint(Left(rooms[id], peer))
    {
      LeftKeeps(rooms[id], peer);
    }
  }

  lemma RoomsOfHas(rooms: map<string, Room>, peer: string, id: string)
    requires id in rooms
    ensures id in RoomsOf(rooms, peer) <==> IsMember(rooms[id].members, peer)
    ensures RoomsOf(rooms, peer) <= rooms.Keys
  {
  }

  lemma ReportedNext(rooms: map<string, Room>, peer: string, done: set<string>, affected: seq<(string, bool)>,
                     id: string)
    requires Reported(rooms, peer, done, affected) && id in rooms && id !in done
    ensures Reported(rooms, peer, done + {id}, affected + [(id, Empties(rooms[id], peer))])
  {
    hide Empties;
  }

  /** `after` differs from `before` in the mute flag of the first member with this id. */
  ghost predicate Muted(before: Room, after: Room, peer: string, muted: bool) {
    exists i :: 0 <= i < |before.members| && before.members[i].peer == peer
                && (forall j :: 0 <= j < i ==> before.members[j].peer != peer)
                && after == before.(members := before.members[i := before.members[i].(muted := muted)])
  }

  lemma MutedKeeps(before: Room, after: Room, peer: string, muted: bool)
    requires Muted(before, after, peer, muted)
    ensures WellFormed(before) ==> WellFormed(after)
    ensures Disjoint(before) ==> Disjoint(after)
    ensures |after.members| == |before.members|
  {
    assert forall p :: IsMember(after.members, p) ==> IsMember(before.members, p) by {
      forall p | IsMember(after.members, p)
        ensures IsMember(before.members, p)
      {
        var k :| 0 <= k < |after.members| && after.members[k].peer == p;
        assert before.members[k].peer == p;
      }
    }
    assert forall k :: 0 <= k < |after.members| ==> after.members[k].peer == before.members[k].peer;
  }

  // ── Removal is leaving everywhere ─────────────────────────────────────────

  function Names(affected: seq<(string, bool)>): seq<string> {
    seq(|affected|, i requires 0 <= i < |affected| => affected[i].0)
  }

  /** Removing a peer everywhere is leaving each of its rooms in turn, with the same destroyed flags. */
  lemma RemoveIsLeaving(rooms: map<string, Room>, peer: string, affected: seq<(string, bool)>)
    requires Reported(rooms, peer, RoomsOf(rooms, peer), affected)
    ensures LeaveEach(rooms, peer, Names(affected)) == (LeftRooms(rooms, peer, RoomsOf(rooms, peer)), affected)
  {
    hide Empties, Left, LeftRooms;
    var ids := Names(affected);
    DistinctSize(ids);
    SubsetSize((set id | id in ids), RoomsOf(rooms, peer));
    LeaveEachIs(rooms, peer, ids);
    forall k | 0 <= k < |affected|
      ensures LeaveEach(rooms, peer, ids).1[k] == affected[k]
    {
      assert affected[k].0 == ids[k];
    }
    assert LeaveEach(rooms, peer, ids).1 == affected;
  }

  // ── Whole runs ────────────────────────────────────────────────────────────

  datatype Op =
    | Create(id: string, creator: string, name: Option<string>, invitees: seq<string>, limit: Option<nat>, now: U64)
    | Receive(id: string, creator: string, name: Option<string>, peer: string, now: U64)
    | Join(id: string, peer: string, now: U64)
    | Leave(id: string, peer: string)
    | Close(id: string, peer: string)
    | Invite(id: string, invitees: seq<string>)
    | Mute(id: string, peer: string, muted: bool)
    | CleanStale(now: U64)
    | CleanExpired(now: U64)
    | RemoveAll(peer: string)

  predicate NoSelfInvite(ops: seq<Op>) {
    forall k :: 0 <= k < |ops| && ops[k].Create? ==> ops[k].creator !in ops[k].invitees
  }

  predicate ReceivedIn(ops: seq<Op>, id: string) {
    exists k :: 0 <= k < |ops| && ops[k].Receive? && ops[k].id == id
  }

  /**
   * Any run on a fresh store: members stay distinct and within the limit, invited peers and
   * members stay apart when no creator invites itself, and only invitations from other
   * nodes leave empty rooms.
   */
  method RunRooms(maxRoomSize: nat, roomTimeout: U64, inviteTimeout: U64, ops: seq<Op>)
    returns (rooms: map<string, Room>)
    ensures forall id :: id in rooms ==> WellFormed(rooms[id])
    ensures NoSelfInvite(ops) ==> AllDisjoint(rooms)
    ensures forall id :: id in rooms && rooms[id].members == [] ==> ReceivedIn(ops, id)
  {
    hide WellFormed, Disjoint, AllDisjoint, ReceivedIn;
    var store := new RoomStore(maxRoomSize, roomTimeout, inviteTimeout);
    for i := 0 to |ops|
      invariant store.Valid()
      invariant NoSelfInvite(ops) ==> AllDisjoint(store.rooms)
      invariant forall id :: id in store.Remote() ==> ReceivedIn(ops, id)
    {
      ReceivedHere(ops, i);
      RunOp(store, ops[i]);
    }
    rooms := store.rooms;
  }

  lemma ReceivedHere(ops: seq<Op>, k: nat)
    requires k < |ops|
    ensures ops[k].Receive? ==> ReceivedIn(ops, ops[k].id)
  {
  }

  method RunOp(store: RoomStore, op: Op)
    requires store.Valid()
    modifies store
    ensures store.Valid()
    ensures old(AllDisjoint(store.rooms)) && (op.Create? ==> op.creator !in op.invitees) ==> AllDisjoint(store.rooms)
    ensures store.Remote() <= old(store.Remote()) + if op.Receive? then {op.id} else {}
  {
    hide AllDisjoint, RoomStore.Valid, RoomStore.Remote;
    match op
    case Create(id, creator, name, invitees, limit, now) =>
      var _ := store.CreateRoom(id, creator, name, invitees, limit, now);
    case Receive(id, creator, name, peer, now) => store.ReceiveInvite(id, creator, name, peer, now);
    case Join(id, peer, now) => var _ := store.JoinRoom(id, peer, now);
    case Leave(id, peer) => var _ := store.LeaveRoom(id, peer);
    case Close(id, peer) => var _ := store.CloseRoom(id, peer);
    case Invite(id, invitees) => var _ := store.InvitePeers(id, invitees);
    case Mute(id, peer, muted) => var _ := store.SetMute(id, peer, muted);
    case CleanStale(now) => var _ := store.CleanupStaleRooms(now);
    case CleanExpired(now) => var _ := store.CleanupExpiredInvites(now);
    case RemoveAll(peer) => var _ := store.RemovePeerFromAll(peer);
  }
}
