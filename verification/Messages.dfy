/** Manifests and protocol messages (node/p2pcd-types/src/lib.rs and wire.rs). */
module Messages {
  import opened Prelude
  import opened Scope
  import opened Sorting

  // ── Roles ─────────────────────────────────────────────────────────────────

  datatype Role = Provide | Consume | Both

  function RoleCode(r: Role): U64 {
    match r case Provide => 1 case Consume => 2 case Both => 3
  }

  function RoleFromCode(v: U64): Option<Role> {
    if v == 1 then Some(Provide) else if v == 2 then Some(Consume) else if v == 3 then Some(Both) else None
  }

  predicate Matches(self: Role, other: Role, selfMutual: bool, otherMutual: bool) {
    match (self, other)
    case (Both, Both) => selfMutual && otherMutual
    case (Provide, Provide) => false
    case (Consume, Consume) => false
    case _ => true
  }

  // ── Manifests ─────────────────────────────────────────────────────────────

  predicate Offers(r: Role) {
    r != Consume
  }

  predicate Wants(r: Role) {
    r != Provide
  }

  /** Roles match when one side offers what the other wants, and two that do both must both be mutual. */
  lemma MatchesByRoles(a: Role, b: Role, aMutual: bool, bMutual: bool)
    ensures Matches(a, b, aMutual, bMutual)
            <==> ((Offers(a) && Wants(b)) || (Offers(b) && Wants(a))) && (a.Both? && b.Both? ==> aMutual && bMutual)
  {
  }

  datatype Capability = Capability(
    name: Str,
    role: Role,
    mutual: bool,
    scope: Option<ScopeParams>,
    applicableScopeKeys: Option<seq<U64>>)

  datatype Manifest = Manifest(
    protocolVersion: U64,
    peerId: PeerId,
    sequenceNum: U64,
    capabilities: seq<Capability>,
    personalHash: Octets,
    hashAlgorithm: Str)

  predicate NameLe(a: Capability, b: Capability) {
    StrLe(a.name, b.name)
  }

  lemma NameLeIsPreorder()
    ensures TotalPreorder(NameLe)
  {
    StrLeIsTotalOrder();
  }

  /** Capabilities in the order the wire carries them. */
  function SortCapabilities(caps: seq<Capability>): (r: seq<Capability>)
    ensures multiset(r) == multiset(caps) && |r| == |caps|
  {
    SortBy(caps, NameLe)
  }

  predicate DistinctNames(caps: seq<Capability>) {
    forall i, j :: 0 <= i < j < |caps| ==> caps[i].name != caps[j].name
  }

  /** The first declaration of `name`, as `iter().find(..)` picks it. */
  function FirstNamed(caps: seq<Capability>, name: Str): Option<Capability> {
    if caps == [] then None else if caps[0].name == name then Some(caps[0]) else FirstNamed(caps[1..], name)
  }

  lemma {:induction false} FirstNamedInsert(x: Capability, caps: seq<Capability>, name: Str)
    requires SortedBy(caps, NameLe)
    ensures FirstNamed(InsertBy(x, caps, NameLe), name) == if x.name == name then Some(x) else FirstNamed(caps, name)
  {
    if caps != [] && !NameLe(x, caps[0]) {
      FirstNamedInsert(x, caps[1..], name);
      assert InsertBy(x, caps, NameLe)[1..] == InsertBy(x, caps[1..], NameLe);
      StrLeTotal(x.name, x.name);
    } else {
      assert ([x] + caps)[1..] == caps;
    }
  }

  /** Sorting is stable, so it does not change which declaration of a name comes first. */
  lemma {:induction false} FirstNamedSorted(caps: seq<Capability>, name: Str)
    ensures FirstNamed(SortCapabilities(caps), name) == FirstNamed(caps, name)
  {
    if caps != [] {
      NameLeIsPreorder();
      SortBySorted(caps[1..], NameLe);
      FirstNamedInsert(caps[0], SortBy(caps[1..], NameLe), name);
      FirstNamedSorted(caps[1..], name);
    }
  }

  /** With distinct names the sorted list depends only on which capabilities are declared. */
  lemma SortedCapabilitiesUnique(a: seq<Capability>, b: seq<Capability>)
    requires DistinctNames(a)
    ensures multiset(a) == multiset(b) <==> SortCapabilities(a) == SortCapabilities(b)
  {
    if multiset(a) == multiset(b) {
      NameLeIsPreorder();
      StrLeIsTotalOrder();
      SortBySorted(a, NameLe);
      SortBySorted(b, NameLe);
      var s, t := SortCapabilities(a), SortCapabilities(b);
      forall x, y | x in s && y in s && NameLe(x, y) && NameLe(y, x)
        ensures x == y
      {
        assert x in multiset(a) && y in multiset(a);
        assert x.name == y.name;
      }
      SortedUnique(s, t, NameLe);
    }
  }

  // ── Messages ──────────────────────────────────────────────────────────────

  datatype CloseReason = Normal | NoMatch | AuthFailure | VersionUnsupported | Timeout | Error

  function ReasonCode(r: CloseReason): U64 {
    match r
    case Normal => 0
    case NoMatch => 1
    case AuthFailure => 2
    case VersionUnsupported => 3
    case Timeout => 4
    case Error => 255
  }

  function ReasonFromCode(v: U64): Option<CloseReason> {
    if v == 0 then Some(Normal)
    else if v == 1 then Some(NoMatch)
    else if v == 2 then Some(AuthFailure)
    else if v == 3 then Some(VersionUnsupported)
    else if v == 4 then Some(Timeout)
    else if v == 255 then Some(Error)
    else None
  }

  datatype Message =
    | Offer(manifest: Manifest)
    | Confirm(personalHash: Octets, activeSet: seq<Str>, acceptedParams: Option<map<Str, ScopeParams>>)
    | Close(personalHash: Octets, reason: CloseReason)
    | Ping(timestamp: U64)
    | Pong(timestamp: U64)
    | CapabilityMsg(messageType: U64, payload: Octets)

  /** The message types with a decoder of their own. */
  predicate ProtocolType(t: U64) {
    1 <= t <= 5
  }
}
