/** Issuing and redeeming invites (`generate` and `consume_by_psk` in node/daemon/src/invite.rs). */
module Invites {
  import opened Prelude
  import opened Decimal
  import opened Addresses
  import opened Text
  import opened Tokens

  datatype Identity = Identity(pubkey: Option<string>, address: Option<string>, endpoint: Option<string>)

  datatype NatProfile = NatProfile(natType: NatType, stride: I32)

  datatype PendingInvite = PendingInvite(
    psk: string,
    assignedIp: string,
    pubkey: string,
    endpoint: string,
    wgAddress: string,
    daemonPort: U16,
    expiresAt: U64,
    ipv6: seq<string>,
    wgPort: U16)

  function PendingFor<A>(t: AddressText<A>, inv: Invite<A>): PendingInvite {
    PendingInvite(inv.psk, inv.assignedIp, inv.pubkey, inv.endpoint, inv.wgAddress, inv.daemonPort, inv.expiresAt,
                  ShowAll(t, inv.ipv6), inv.wgPort)
  }

  predicate Unroutable(endpoint: string) {
    "0.0.0.0" <= endpoint
  }

  /** The place of the first pending invite with this key, or the length of the list. */
  function Position(pending: seq<PendingInvite>, psk: string): (i: nat)
    ensures i <= |pending|
    ensures i < |pending| ==> pending[i].psk == psk
    ensures forall j :: 0 <= j < i ==> pending[j].psk != psk
  {
    if pending == [] || pending[0].psk == psk then 0 else 1 + Position(pending[1..], psk)
  }

  lemma CandidateFree(k: nat)
    ensures '|' !in Candidate(k)
  {
    assert '|' !in Print(k / 256) && '|' !in Print(k % 256);
  }

  /** The list without its first invite with this key, which may be none. */
  function TakeFirst(pending: seq<PendingInvite>, psk: string): seq<PendingInvite> {
    var i := Position(pending, psk);
    if i == |pending| then pending else pending[..i] + pending[i + 1..]
  }

  /** The endpoint an invite names: the override, else the node's own, else the unroutable one. */
  function Endpoint(identity: Identity, endpointOverride: Option<string>): string {
    if endpointOverride.Some? then endpointOverride.value
    else if identity.endpoint.Some? then identity.endpoint.value
    else "0.0.0.0:51820"
  }

  /** Nobody could follow the invite, whatever the address: no key, no address of ours, or no way to reach us. */
  predicate Unissuable<A>(identity: Identity, endpointOverride: Option<string>, guas: seq<A>) {
    identity.pubkey.None? || identity.address.None? || (Unroutable(Endpoint(identity, endpointOverride)) && guas == [])
  }

  /** The endpoint prefers the override; without one or one of its own the node offers an unroutable address. */
  lemma EndpointIs(identity: Identity, endpointOverride: Option<string>)
    ensures endpointOverride.Some? ==> Endpoint(identity, endpointOverride) == endpointOverride.value
    ensures endpointOverride.None? && identity.endpoint.Some? ==>
              Endpoint(identity, endpointOverride) == identity.endpoint.value
    ensures endpointOverride.None? && identity.endpoint.None? ==> Unroutable(Endpoint(identity, endpointOverride))
  {
  }

  /** Only endpoints that begin with the unspecified address are unroutable. */
  lemma UnroutableMeans(endpoint: string)
    ensures Unroutable(endpoint) <==> |endpoint| >= 7 && endpoint[..7] == "0.0.0.0"
  {
  }

  /** Without a key or an address nothing is issued; with both, an IPv6 address or a routable endpoint is enough. */
  lemma UnissuableMeans<A>(identity: Identity, endpointOverride: Option<string>, guas: seq<A>)
    ensures identity.pubkey.None? || identity.address.None? ==> Unissuable(identity, endpointOverride, guas)
    ensures identity.pubkey.Some? && identity.address.Some? && guas != [] ==>
              !Unissuable(identity, endpointOverride, guas)
    ensures identity.pubkey.Some? && identity.address.Some? && guas == [] ==>
              (Unissuable(identity, endpointOverride, guas) <==> Unroutable(Endpoint(identity, endpointOverride)))
  {
  }

  class InviteStore {
    var pending: seq<PendingInvite>
    const book: AddressBook

    constructor (book: AddressBook)
      ensures pending == [] && this.book == book
    {
      pending := [];
      this.book := book;
    }

    /** `expiresAt` is the clock plus the lifetime, `psk` the drawn key; the result is the text to encode. */
    method Generate<A(!new)>(t: AddressText<A>, identity: Identity, endpointOverride: Option<string>, daemonPort: U16,
                             expiresAt: U64, guas: seq<A>, wgPort: U16, profile: Option<NatProfile>,
                             relays: seq<string>, psk: string)
      returns (r: Result<string>, inv: Option<Invite<A>>)
      modifies this, book
      ensures r.Ok? <==> inv.Some?
      ensures r.Err? <==> Unissuable(identity, endpointOverride, guas) || TakenBelow(old(book.addresses), SPACE)
      ensures r.Err? ==> pending == old(pending) && book.addresses == old(book.addresses)
      ensures r.Ok? ==>
                && r.value == InvitePayload(t, inv.value)
                && book.addresses == old(book.addresses) + [inv.value.assignedIp]
                && (exists k :: LeastFree(old(book.addresses), k) && inv.value.assignedIp == Candidate(k))
                && pending == old(pending) + [PendingFor(t, inv.value)]
      ensures r.Ok? ==>
                && |pending| == |old(pending)| + 1
                && (var p := pending[|old(pending)|];
                    && p.psk == psk && p.expiresAt == expiresAt && p.daemonPort == daemonPort && p.wgPort == wgPort
                    && Some(p.pubkey) == identity.pubkey && Some(p.wgAddress) == identity.address
                    && p.endpoint == Endpoint(identity, endpointOverride)
                    && p.assignedIp == inv.value.assignedIp && p.ipv6 == ShowAll(t, guas))
      ensures r.Ok? && Faithful(t) ==>
                (DecodeInvite(t, r.value) == Ok(inv.value) <==>
                 && '|' !in inv.value.pubkey && '|' !in inv.value.endpoint && '|' !in inv.value.wgAddress && '|' !in psk
                 && CsvSafe(relays))
      ensures r.Ok? ==>
                && Some(inv.value.pubkey) == identity.pubkey && Some(inv.value.wgAddress) == identity.address
                && inv.value.endpoint == Endpoint(identity, endpointOverride)
                && inv.value.psk == psk && inv.value.expiresAt == expiresAt
                && inv.value.daemonPort == daemonPort && inv.value.wgPort == wgPort
                && inv.value.ipv6 == guas && inv.value.relays == relays
                && inv.value.stride == (if profile.Some? then profile.value.stride else 0)
                && inv.value.natType == (if profile.Some? then Some(profile.value.natType) else None)
    {
      hide InvitePayload, DecodeInvite, Candidate, CsvSafe, LeastFree, TakenBelow, Faithful, ShowAll;
      if identity.pubkey.None? || identity.address.None? {
        return Err, None;
      }
      var endpoint := "0.0.0.0:51820";
      if endpointOverride.Some? {
        endpoint := endpointOverride.value;
      } else if identity.endpoint.Some? {
        endpoint := identity.endpoint.value;
      }
      if Unroutable(endpoint) && guas == [] {
        return Err, None;
      }
      var slot := book.AssignNextAddress();
      if slot.Err? {
        return Err, None;
      }
      var invite := Invite(
        identity.pubkey.value, endpoint, identity.address.value, psk, slot.value, daemonPort, expiresAt, guas, wgPort,
        if profile.Some? then Some(profile.value.natType) else None,
        if profile.Some? then profile.value.stride else 0, relays);
      pending := pending + [PendingFor(t, invite)];
      ghost var k :| LeastFree(old(book.addresses), k) && slot.value == Candidate(k);
      CandidateFree(k);
      if Faithful(t) {
        InviteRoundTrip(t, invite);
      }
      return Ok(InvitePayload(t, invite)), Some(invite);
    }

    /** Takes the first match off the list even when it has expired. */
    method ConsumeByPsk(psk: string, now: nat) returns (r: Option<PendingInvite>)
      modifies this
      ensures pending == TakeFirst(old(pending), psk)
      ensures var i := Position(old(pending), psk);
              r == if i < |old(pending)| && now <= old(pending)[i].expiresAt then Some(old(pending)[i]) else None
    {
      var i := Position(pending, psk);
      if i == |pending| {
        return None;
      }
      var taken := pending[i];
      pending := pending[..i] + pending[i + 1..];
      if taken.expiresAt < now {
        return None;
      }
      return Some(taken);
    }
  }
}
