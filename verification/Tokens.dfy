/** Invite and accept payloads (node/daemon/src/invite.rs and accept.rs). */
module Tokens {
  import opened Prelude
  import opened Decimal
  import opened Text

  datatype NatType = Open | Cone | Symmetric | Unknown

  function NatName(n: NatType): string {
    match n case Open => "open" case Cone => "cone" case Symmetric => "symmetric" case Unknown => "unknown"
  }

  function NatFromName(s: string): Option<NatType> {
    if s == "open" then Some(Open)
    else if s == "cone" then Some(Cone)
    else if s == "symmetric" then Some(Symmetric)
    else if s == "unknown" then Some(Unknown)
    else None
  }

  function NatField(n: Option<NatType>): string {
    if n.Some? then NatName(n.value) else ""
  }

  // ── IPv6 addresses ────────────────────────────────────────────────────────

  /** Display and `parse` of an address type. */
  datatype AddressText<!A> = AddressText(show: A -> string, parse: string -> Option<A>)

  /** What IPv6 text guarantees: it reads back, and has neither separator. */
  ghost predicate Faithful<A(!new)>(t: AddressText<A>) {
    forall a :: t.parse(t.show(a)) == Some(a) && t.show(a) != [] && ',' !in t.show(a) && '|' !in t.show(a)
  }

  function ShowAll<A>(t: AddressText<A>, addresses: seq<A>): (r: seq<string>)
    ensures |r| == |addresses|
  {
    if addresses == [] then [] else [t.show(addresses[0])] + ShowAll(t, addresses[1..])
  }

  /** Entries that do not parse are skipped. */
  function ParseAll<A>(t: AddressText<A>, entries: seq<string>): seq<A> {
    if entries == [] then []
    else
      (match t.parse(entries[0]) case Some(a) => [a] case None => []) + ParseAll(t, entries[1..])
  }

  lemma {:induction false} ShowAllFree<A(!new)>(t: AddressText<A>, addresses: seq<A>)
    requires Faithful(t)
    ensures Free(ShowAll(t, addresses), ',') && Free(ShowAll(t, addresses), '|')
    ensures forall i :: 0 <= i < |addresses| ==> ShowAll(t, addresses)[i] != ""
    ensures ParseAll(t, ShowAll(t, addresses)) == addresses
  {
    if addresses != [] {
      ShowAllFree(t, addresses[1..]);
      HeadSplit(addresses);
      assert ShowAll(t, addresses)[1..] == ShowAll(t, addresses[1..]);
    }
  }

  function AddressCsv<A>(t: AddressText<A>, addresses: seq<A>): string {
    Join(ShowAll(t, addresses), ',')
  }

  lemma AddressCsvRoundTrip<A(!new)>(t: AddressText<A>, addresses: seq<A>)
    requires Faithful(t)
    ensures ParseAll(t, FromCsv(AddressCsv(t, addresses))) == addresses
    ensures '|' !in AddressCsv(t, addresses)
  {
    ShowAllFree(t, addresses);
    CsvRoundTrip(ShowAll(t, addresses));
    JoinFree(ShowAll(t, addresses), ',', '|');
  }

  // ── Invites ───────────────────────────────────────────────────────────────

  datatype Invite<A> = Invite(
    pubkey: string,
    endpoint: string,
    wgAddress: string,
    psk: string,
    assignedIp: string,
    daemonPort: U16,
    expiresAt: U64,
    ipv6: seq<A>,
    wgPort: U16,
    natType: Option<NatType>,
    stride: I32,
    relays: seq<string>)

  const DEFAULT_WG_PORT: U16 := 41641
  const FIELDS := 12

  function InviteFields<A>(t: AddressText<A>, inv: Invite<A>): (r: seq<string>)
    ensures |r| == FIELDS
  {
    [
      inv.pubkey, inv.endpoint, inv.wgAddress, inv.psk, inv.assignedIp,
      Print(inv.daemonPort), Print(inv.expiresAt),
      AddressCsv(t, inv.ipv6), Print(inv.wgPort),
      NatField(inv.natType),
      PrintI32(inv.stride), Join(inv.relays, ',')
    ]
  }

  /** The text `generate` encodes. */
  function InvitePayload<A>(t: AddressText<A>, inv: Invite<A>): string {
    Join(InviteFields(t, inv), '|')
  }

  lemma JoinAt(fields: seq<string>, k: nat, c: char)
    requires k < |fields|
    ensures Join(fields[k..], c) == if k + 1 < |fields| then fields[k] + [c] + Join(fields[k + 1..], c) else fields[k]
  {
    assert fields[k..][1..] == fields[k + 1..];
  }

  /** The second half of an invite's text: its expiry and what later versions of the format added. */
  function NewerText<A>(t: AddressText<A>, inv: Invite<A>): string {
    Print(inv.expiresAt) + "|" + (AddressCsv(t, inv.ipv6) + "|" + (Print(inv.wgPort) + "|"
    + ((if inv.natType.Some? then NatName(inv.natType.value) else "") + "|"
    + (PrintI32(inv.stride) + "|" + Join(inv.relays, ',')))))
  }

  lemma NewerTextIs<A>(t: AddressText<A>, inv: Invite<A>)
    ensures Join(InviteFields(t, inv)[6..], '|') == NewerText(t, inv)
  {
    hide Join, AddressCsv, NatName, Print, PrintI32;
    var fields := InviteFields(t, inv);
    JoinAt(fields, 6, '|');
    JoinAt(fields, 7, '|');
    JoinAt(fields, 8, '|');
    JoinAt(fields, 9, '|');
    JoinAt(fields, 10, '|');
    JoinAt(fields, 11, '|');
  }

  /** The fields of an invite, in the order of the third version of its format. */
  lemma InviteText<A>(t: AddressText<A>, inv: Invite<A>)
    ensures InvitePayload(t, inv)
            == inv.pubkey + "|" + (inv.endpoint + "|" + (inv.wgAddress + "|" + (inv.psk + "|" + (inv.assignedIp + "|"
               + (Print(inv.daemonPort) + "|" + NewerText(t, inv))))))
  {
    hide Join, AddressCsv, NewerText, Print, PrintI32, NatField;
    var fields := InviteFields(t, inv);
    NewerTextIs(t, inv);
    assert fields[0..] == fields;
    JoinAt(fields, 0, '|');
    JoinAt(fields, 1, '|');
    JoinAt(fields, 2, '|');
    JoinAt(fields, 3, '|');
    JoinAt(fields, 4, '|');
    JoinAt(fields, 5, '|');
  }

  /** Everything after the last colon. */
  function AfterLast(s: string, c: char): (r: string)
    requires c in s
    ensures c !in r && |r| < |s| && s[|s| - |r|..] == r && s[|s| - |r| - 1] == c
  {
    if c in s[1..] then AfterLast(s[1..], c) else s[1..]
  }

  /** `extract_port_from_endpoint` */
  function PortOf(endpoint: string): Option<U16> {
    if ':' !in endpoint then None
    else
      match ParseUnsigned(AfterLast(endpoint, ':'), U16_MAX)
      case Some(p) => Some(p)
      case None => None
  }

  lemma {:induction false} AfterLastOf(a: string, b: string, c: char)
    requires c !in b
    ensures c in a + [c] + b && AfterLast(a + [c] + b, c) == b
  {
    var s := a + [c] + b;
    assert s[|a|] == c;
    if a == [] {
      assert s[1..] == b;
    } else {
      assert s[1..] == a[1..] + [c] + b;
      AfterLastOf(a[1..], b, c);
    }
  }

  /** The port of an endpoint is what follows its last colon; a host may hold colons of its own. */
  lemma EndpointPort(host: string, port: U16)
    ensures PortOf(host + ":" + Print(port)) == Some(port)
    ensures ':' !in host ==> FallbackPort(host) == 41641
  {
    AfterLastOf(host, Print(port), ':');
    UnsignedRoundTrip(port, U16_MAX);
  }

  /** What follows the last colon is the port if it is a number of 16 bits; otherwise the default stands in. */
  lemma LastColonDecides(host: string, rest: string)
    requires ':' !in rest
    ensures FallbackPort(host + ":" + rest)
            == if ParseUnsigned(rest, 65535).Some? then ParseUnsigned(rest, 65535).value else 41641
  {
    AfterLastOf(host, rest, ':');
  }

  function FallbackPort(endpoint: string): U16 {
    match PortOf(endpoint) case Some(p) => p case None => DEFAULT_WG_PORT
  }

  function DecodeInviteFields<A>(t: AddressText<A>, parts: seq<string>): Result<Invite<A>>
    requires |parts| >= 7
  {
    match (ParseUnsigned(parts[5], U16_MAX), ParseUnsigned(parts[6], U64_MAX))
    case (Some(daemonPort), Some(expiresAt)) =>
      Ok(Invite(
           parts[0], parts[1], parts[2], parts[3], parts[4], daemonPort, expiresAt,
           if |parts| > 7 then ParseAll(t, FromCsv(parts[7])) else [],
           if |parts| > 8 && ParseUnsigned(parts[8], U16_MAX).Some? then ParseUnsigned(parts[8], U16_MAX).value
               else FallbackPort(parts[1]),
           if |parts| > 9 then NatFromName(parts[9]) else None,
           if |parts| > 10 && ParseI32(parts[10]).Some? then ParseI32(parts[10]).value else 0,
           if |parts| > 11 then FromCsv(parts[11]) else []))
    case _ => Err
  }

  function DecodeInvite<A>(t: AddressText<A>, payload: string): Result<Invite<A>> {
    var parts := SplitN(payload, '|', FIELDS);
    if |parts| < 7 then Err else DecodeInviteFields(t, parts)
  }

  /** What a payload of only the first `k` fields tells: the rest takes its defaults. */
  function Known<A>(inv: Invite<A>, k: nat): Invite<A> {
    inv.(
    ipv6 := if k > 7 then inv.ipv6 else [],
    wgPort := if k > 8 then inv.wgPort else FallbackPort(inv.endpoint),
    natType := if k > 9 then inv.natType else None,
    stride := if k > 10 then inv.stride else 0,
    relays := if k > 11 then inv.relays else [])
  }

  /** A payload is refused exactly when it has fewer than seven fields, or no port or expiry among them. */
  lemma DecodeRefuses<A>(t: AddressText<A>, fields: seq<string>)
    requires 0 < |fields| <= 12 && Free(fields, '|')
    ensures DecodeInvite(t, Join(fields, '|')).Ok?
            <==> |fields| >= 7 && ParseUnsigned(fields[5], 0xFFFF).Some?
                 && ParseUnsigned(fields[6], 0xFFFF_FFFF_FFFF_FFFF).Some?
  {
    JoinSplitN(fields, '|', FIELDS);
    hide SplitN, Join, ParseUnsigned, ParseI32, ParseAll, FromCsv, NatFromName, FallbackPort;
  }

  predicate TextFree<A>(inv: Invite<A>) {
    && '|' !in inv.pubkey && '|' !in inv.endpoint && '|' !in inv.wgAddress && '|' !in inv.psk && '|' !in inv.assignedIp
  }

  lemma NumberFree(n: nat, i: I32)
    ensures '|' !in Print(n) && '|' !in PrintI32(i)
  {
  }

  lemma NatFieldFree(n: Option<NatType>)
    ensures '|' !in NatField(n)
  {
  }

  lemma InviteFieldsFree<A(!new)>(t: AddressText<A>, inv: Invite<A>)
    requires Faithful(t)
    ensures TextFree(inv) <==> AllButLastFree(InviteFields(t, inv), '|')
  {
    hide Print, PrintI32, AddressCsv, Join, Faithful, NatField, ParseAll, FromCsv;
    NumberFree(inv.daemonPort, inv.stride);
    NumberFree(inv.expiresAt, inv.stride);
    NumberFree(inv.wgPort, inv.stride);
    NatFieldFree(inv.natType);
    AddressCsvRoundTrip(t, inv.ipv6);
    var f := InviteFields(t, inv);
    if AllButLastFree(f, '|') {
      assert '|' !in f[0] && '|' !in f[1] && '|' !in f[2] && '|' !in f[3] && '|' !in f[4];
    }
  }

  /** The first `k` fields decode to themselves and the defaults. */
  lemma FieldsDecode<A(!new)>(t: AddressText<A>, inv: Invite<A>, k: nat)
    requires Faithful(t) && 7 <= k <= FIELDS
    requires k == FIELDS ==> CsvSafe(inv.relays)
    ensures DecodeInviteFields(t, InviteFields(t, inv)[..k]) == Ok(Known(inv, k))
  {
    hide Print, PrintI32, AddressCsv, Join, ParseUnsigned, ParseI32, FromCsv, ParseAll, Faithful;
    UnsignedRoundTrip(inv.daemonPort, U16_MAX);
    UnsignedRoundTrip(inv.expiresAt, U64_MAX);
    UnsignedRoundTrip(inv.wgPort, U16_MAX);
    I32RoundTrip(inv.stride);
    AddressCsvRoundTrip(t, inv.ipv6);
    CsvRoundTrip(inv.relays);
  }

  /** A payload cut to its first `k` fields, seven or more, decodes to the shared fields and the defaults. */
  lemma CutRoundTrip<A(!new)>(t: AddressText<A>, inv: Invite<A>, k: nat)
    requires Faithful(t) && TextFree(inv) && 7 <= k <= FIELDS
    requires k == FIELDS ==> CsvSafe(inv.relays)
    ensures DecodeInvite(t, Join(InviteFields(t, inv)[..k], '|')) == Ok(Known(inv, k))
  {
    hide TextFree, CsvSafe, SplitN, Join, Known, DecodeInviteFields, Faithful;
    InviteFieldsFree(t, inv);
    var f := InviteFields(t, inv);
    assert k < FIELDS ==> f[..k][k - 1] == f[k - 1];
    JoinSplitN(f[..k], '|', FIELDS);
    FieldsDecode(t, inv, k);
  }

  /** An invite reads back if and only if its texts hold no `|` and its relay list is expressible. */
  lemma InviteRoundTrip<A(!new)>(t: AddressText<A>, inv: Invite<A>)
    requires Faithful(t)
    ensures DecodeInvite(t, InvitePayload(t, inv)) == Ok(inv) <==> TextFree(inv) && CsvSafe(inv.relays)
  {
    hide CsvSafe, SplitN, Join, Faithful, ParseUnsigned, ParseI32, FromCsv, ParseAll, InviteFields;
    var f := InviteFields(t, inv);
    assert f[..FIELDS] == f;
    if TextFree(inv) && CsvSafe(inv.relays) {
      CutRoundTrip(t, inv, FIELDS);
    }
    if DecodeInvite(t, InvitePayload(t, inv)) == Ok(inv) {
      var parts := SplitN(InvitePayload(t, inv), '|', FIELDS);
      assert forall i :: 0 <= i < 5 ==> '|' !in parts[i];
      RelaysReadBack(t, inv);
    }
  }

  lemma RelaysReadBack<A(!new)>(t: AddressText<A>, inv: Invite<A>)
    requires Faithful(t) && TextFree(inv) && DecodeInvite(t, InvitePayload(t, inv)) == Ok(inv)
    ensures CsvSafe(inv.relays)
  {
    hide CsvSafe, SplitN, Join, Faithful, TextFree, ParseUnsigned, ParseI32, FromCsv, ParseAll;
    InviteFieldsFree(t, inv);
    JoinSplitNExact(InviteFields(t, inv), '|', FIELDS);
    assert FromCsv(Join(inv.relays, ',')) == inv.relays;
    CsvRoundTrip(inv.relays);
  }

  // ── Accept tokens ─────────────────────────────────────────────────────────

  datatype Accept<A> = Accept(
    inviterPubkey: string,
    pubkey: string,
    ipv6: seq<A>,
    externalIp: string,
    externalPort: U16,
    wgPort: U16,
    natType: NatType,
    stride: I32,
    psk: string)

  const ACCEPT_FIELDS := 9

  function AcceptFields<A>(t: AddressText<A>, a: Accept<A>): (r: seq<string>)
    ensures |r| == ACCEPT_FIELDS
  {
    [
      a.inviterPubkey, a.pubkey, AddressCsv(t, a.ipv6), a.externalIp,
      Print(a.externalPort), Print(a.wgPort), NatName(a.natType), PrintI32(a.stride), a.psk
    ]
  }

  function AcceptPayload<A>(t: AddressText<A>, a: Accept<A>): string {
    Join(AcceptFields(t, a), '|')
  }

  /** The fields of an accept token, in order. */
  lemma AcceptText<A>(t: AddressText<A>, a: Accept<A>)
    ensures AcceptPayload(t, a)
            == a.inviterPubkey + "|" + (a.pubkey + "|" + (AddressCsv(t, a.ipv6) + "|" + (a.externalIp + "|"
               + (Print(a.externalPort) + "|" + (Print(a.wgPort) + "|" + (NatName(a.natType) + "|"
               + (PrintI32(a.stride) + "|" + a.psk)))))))
  {
    hide Join, AddressCsv, NatName, Print, PrintI32;
    var fields := AcceptFields(t, a);
    assert fields[0..] == fields;
    JoinAt(fields, 0, '|');
    JoinAt(fields, 1, '|');
    JoinAt(fields, 2, '|');
    JoinAt(fields, 3, '|');
    JoinAt(fields, 4, '|');
    JoinAt(fields, 5, '|');
    JoinAt(fields, 6, '|');
    JoinAt(fields, 7, '|');
    JoinAt(fields, 8, '|');
  }

  /** The four kinds of NAT by their words; anything else is no kind. */
  lemma NatWords(s: string)
    ensures NatFromName("open") == Some(Open) && NatFromName("cone") == Some(Cone)
    ensures NatFromName("symmetric") == Some(Symmetric) && NatFromName("unknown") == Some(Unknown)
    ensures NatFromName(s).Some? <==> s in ["open", "cone", "symmetric", "unknown"]
    ensures NatFromName(s).Some? ==> NatName(NatFromName(s).value) == s
  {
  }

  function DecodeAcceptFields<A>(t: AddressText<A>, parts: seq<string>): Result<Accept<A>>
    requires |parts| == ACCEPT_FIELDS
  {
    match (ParseUnsigned(parts[4], U16_MAX), ParseUnsigned(parts[5], U16_MAX), ParseI32(parts[7]))
    case (Some(externalPort), Some(wgPort), Some(stride)) =>
      Ok(Accept(
           parts[0], parts[1], ParseAll(t, FromCsv(parts[2])), parts[3], externalPort, wgPort,
           if NatFromName(parts[6]).Some? then NatFromName(parts[6]).value else Unknown, stride, parts[8]))
    case _ => Err
  }

  function DecodeAccept<A>(t: AddressText<A>, payload: string): Result<Accept<A>> {
    var parts := SplitN(payload, '|', ACCEPT_FIELDS);
    if |parts| != ACCEPT_FIELDS then Err else DecodeAcceptFields(t, parts)
  }

  lemma NatNameFree(n: NatType)
    ensures '|' !in NatName(n)
  {
  }

  lemma AcceptFieldsFree<A(!new)>(t: AddressText<A>, a: Accept<A>)
    requires Faithful(t)
    ensures AllButLastFree(AcceptFields(t, a), '|')
            <==> '|' !in a.inviterPubkey && '|' !in a.pubkey && '|' !in a.externalIp
  {
    hide Print, PrintI32, AddressCsv, Join, Faithful, NatName;
    NumberFree(a.externalPort, a.stride);
    NumberFree(a.wgPort, a.stride);
    NatNameFree(a.natType);
    AddressCsvRoundTrip(t, a.ipv6);
    var f := AcceptFields(t, a);
    if AllButLastFree(f, '|') {
      assert '|' !in f[0] && '|' !in f[1] && '|' !in f[3];
    }
  }

  lemma AcceptFieldsDecode<A(!new)>(t: AddressText<A>, a: Accept<A>)
    requires Faithful(t)
    ensures DecodeAcceptFields(t, AcceptFields(t, a)) == Ok(a)
  {
    hide Print, PrintI32, AddressCsv, Join, ParseUnsigned, ParseI32, FromCsv, ParseAll, Faithful;
    UnsignedRoundTrip(a.externalPort, U16_MAX);
    UnsignedRoundTrip(a.wgPort, U16_MAX);
    I32RoundTrip(a.stride);
    AddressCsvRoundTrip(t, a.ipv6);
  }

  /** An accept token reads back if and only if the two keys and the address hold no `|`; the key at the end may. */
  lemma AcceptRoundTrip<A(!new)>(t: AddressText<A>, a: Accept<A>)
    requires Faithful(t)
    ensures DecodeAccept(t, AcceptPayload(t, a)) == Ok(a)
            <==> '|' !in a.inviterPubkey && '|' !in a.pubkey && '|' !in a.externalIp
  {
    hide SplitN, Join, Faithful, ParseUnsigned, ParseI32, FromCsv, ParseAll, AcceptFields;
    AcceptFieldsFree(t, a);
    JoinSplitNExact(AcceptFields(t, a), '|', ACCEPT_FIELDS);
    AcceptFieldsDecode(t, a);
    if DecodeAccept(t, AcceptPayload(t, a)) == Ok(a) {
      var parts := SplitN(AcceptPayload(t, a), '|', ACCEPT_FIELDS);
      assert '|' !in parts[0] && '|' !in parts[1] && '|' !in parts[3];
    }
  }
}
