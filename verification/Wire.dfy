/** Capabilities, manifests and messages as CBOR (node/p2pcd-types/src/cbor.rs). */
module Wire {
  import opened Prelude
  import opened Sorting
  import opened Scope
  import opened Messages
  import opened Cbor
  import opened Codec

  // ── Lookups in an encoded map ─────────────────────────────────────────────

  /** Integer keys in strictly ascending order (section 4.2.1 of RFC 8949). */
  ghost predicate AscendingKeys(es: seq<Entry>) {
    && (forall i :: 0 <= i < |es| ==> es[i].key.Integer?)
    && (forall i, j :: 0 <= i < j < |es| ==> es[i].key.i < es[j].key.i)
  }

  lemma {:induction false} LookupAt(es: seq<Entry>, i: nat)
    requires AscendingKeys(es) && i < |es| && es[i].key.i >= 0
    ensures Lookup(es, es[i].key.i, KindOf(es[i].val)) == Some(es[i].val)
  {
    if i > 0 {
      assert AscendingKeys(es[1..]);
      LookupAt(es[1..], i - 1);
    }
  }

  lemma AscendingAppend(a: seq<Entry>, b: seq<Entry>)
    requires AscendingKeys(a) && AscendingKeys(b)
    requires forall i, j :: 0 <= i < |a| && 0 <= j < |b| ==> a[i].key.i < b[j].key.i
    ensures AscendingKeys(a + b)
  {
  }

  lemma {:induction false} LookupMissing(es: seq<Entry>, key: U64, kind: Kind)
    requires forall j :: 0 <= j < |es| ==> es[j].key != Integer(key)
    ensures Lookup(es, key, kind).None?
  {
    if es != [] {
      LookupMissing(es[1..], key, kind);
    }
  }

  // ── Capabilities ──────────────────────────────────────────────────────────

  const NAME: U64 := 1
  const ROLE: U64 := 2
  const MUTUAL: U64 := 3
  const SCOPE: U64 := 5
  const APPLICABLE_SCOPE_KEYS: U64 := 6

  function KeysToCbor(ks: seq<U64>): seq<Value> {
    if ks == [] then [] else [Integer(ks[0])] + KeysToCbor(ks[1..])
  }

  function KeysFromCbor(vs: seq<Value>): seq<U64> {
    if vs == [] then []
    else if vs[0].Integer? && vs[0].i >= 0 then [vs[0].i] + KeysFromCbor(vs[1..])
    else KeysFromCbor(vs[1..])
  }

  lemma {:induction false} KeysRoundTrip(ks: seq<U64>)
    ensures KeysFromCbor(KeysToCbor(ks)) == ks
  {
    if ks != [] {
      KeysRoundTrip(ks[1..]);
      assert KeysToCbor(ks)[1..] == KeysToCbor(ks[1..]);
    }
  }

  function MutualEntry(c: Capability): seq<Entry> {
    if c.mutual then [Entry(Integer(MUTUAL), Value.Bool(true))] else []
  }

  function ScopeEntry(c: Capability): seq<Entry> {
    match c.scope
    case Some(s) => [Entry(Integer(SCOPE), ScopeToCbor(s))]
    case None => []
  }

  function KeysEntry(c: Capability): seq<Entry> {
    match c.applicableScopeKeys
    case Some(ks) => [Entry(Integer(APPLICABLE_SCOPE_KEYS), Value.Array(KeysToCbor(ks)))]
    case None => []
  }

  function CapEntries(c: Capability): seq<Entry> {
    [Entry(Integer(NAME), Value.Text(c.name)), Entry(Integer(ROLE), Integer(RoleCode(c.role)))]
    + MutualEntry(c) + ScopeEntry(c) + KeysEntry(c)
  }

  function CapToCbor(c: Capability): Value {
    Map(CapEntries(c))
  }

  function GetBool(es: seq<Entry>, key: U64): Option<bool> {
    match Lookup(es, key, BoolKind)
    case Some(v) => Some(v.b)
    case None => None
  }

  function ScopeOf(es: seq<Entry>): Option<ScopeParams> {
    match GetMap(es, SCOPE)
    case Some(m) => Some(ScopeFromEntries(m))
    case None => None
  }

  function ScopeKeysOf(es: seq<Entry>): Option<seq<U64>> {
    match GetArray(es, APPLICABLE_SCOPE_KEYS)
    case Some(vs) => Some(KeysFromCbor(vs))
    case None => None
  }

  function CapFromEntries(es: seq<Entry>): Result<Capability> {
    match (GetText(es, NAME), GetInt(es, ROLE))
    case (Some(name), Some(code)) =>
      (match RoleFromCode(code)
       case None => Err
       case Some(role) => Ok(Capability(name, role, GetBool(es, MUTUAL) == Some(true), ScopeOf(es), ScopeKeysOf(es))))
    case _ => Err
  }

  function CapFromCbor(v: Value): Result<Capability> {
    if v.Map? then CapFromEntries(v.entries) else Err
  }

  /** The declaration decoded from `c`'s encoding. */
  function ReceivedCap(c: Capability): Capability {
    match c.scope
    case Some(s) => c.(scope := Some(ReceivedScope(s)))
    case None => c
  }

  lemma CapKeysAscend(c: Capability)
    ensures AscendingKeys(CapEntries(c))
  {
    hide ScopeToCbor, KeysToCbor, RoleCode;
    var required := [Entry(Integer(NAME), Value.Text(c.name)), Entry(Integer(ROLE), Integer(RoleCode(c.role)))];
    AscendingAppend(required, MutualEntry(c));
    AscendingAppend(required + MutualEntry(c), ScopeEntry(c));
    AscendingAppend(required + MutualEntry(c) + ScopeEntry(c), KeysEntry(c));
  }

  lemma CapLookups(c: Capability)
    ensures GetText(CapEntries(c), NAME) == Some(c.name)
    ensures GetInt(CapEntries(c), ROLE) == Some(RoleCode(c.role))
  {
    CapKeysAscend(c);
    LookupAt(CapEntries(c), 0);
    LookupAt(CapEntries(c), 1);
  }

  lemma CapMutualDecodes(c: Capability)
    ensures GetBool(CapEntries(c), MUTUAL) == if c.mutual then Some(true) else None
  {
    if c.mutual {
      CapKeysAscend(c);
      LookupAt(CapEntries(c), 2);
    } else {
      LookupMissing(CapEntries(c), MUTUAL, BoolKind);
    }
  }

  lemma CapScopeDecodes(c: Capability)
    ensures ScopeOf(CapEntries(c)) == ReceivedCap(c).scope
  {
    hide Lookup, AscendingKeys, ScopeToCbor, ScopeFromEntries, ReceivedScope;
    if c.scope.Some? {
      CapKeysAscend(c);
      LookupAt(CapEntries(c), 2 + |MutualEntry(c)|);
      ScopeDecodes(c.scope.value);
    } else {
      LookupMissing(CapEntries(c), SCOPE, MapKind);
    }
  }

  lemma CapScopeKeysDecode(c: Capability)
    ensures ScopeKeysOf(CapEntries(c)) == c.applicableScopeKeys
  {
    if c.applicableScopeKeys.Some? {
      CapKeysAscend(c);
      LookupAt(CapEntries(c), |CapEntries(c)| - 1);
      KeysRoundTrip(c.applicableScopeKeys.value);
    } else {
      LookupMissing(CapEntries(c), APPLICABLE_SCOPE_KEYS, ArrayKind);
    }
  }

  lemma CapAssembles(es: seq<Entry>, c: Capability)
    requires GetText(es, NAME) == Some(c.name) && GetInt(es, ROLE) == Some(RoleCode(c.role))
    requires GetBool(es, MUTUAL) == if c.mutual then Some(true) else None
    requires ScopeOf(es) == ReceivedCap(c).scope && ScopeKeysOf(es) == c.applicableScopeKeys
    ensures CapFromEntries(es) == Ok(ReceivedCap(c))
  {
    assert RoleFromCode(RoleCode(c.role)) == Some(c.role);
  }

  lemma CapDecodes(c: Capability)
    ensures CapFromCbor(CapToCbor(c)) == Ok(ReceivedCap(c))
  {
    CapLookups(c);
    CapMutualDecodes(c);
    CapScopeDecodes(c);
    CapScopeKeysDecode(c);
    CapAssembles(CapEntries(c), c);
  }

  // ── Manifests ─────────────────────────────────────────────────────────────

  const PROTOCOL_VERSION: U64 := 1
  const PEER_ID: U64 := 2
  const SEQUENCE_NUM: U64 := 3
  const CAPABILITIES: U64 := 4
  const MANIFEST_HASH: U64 := 5
  const HASH_ALGORITHM: U64 := 6

  function CapsToCbor(cs: seq<Capability>): (r: seq<Value>)
    ensures |r| == |cs| && forall i :: 0 <= i < |cs| ==> r[i] == CapToCbor(cs[i])
  {
    if cs == [] then [] else [CapToCbor(cs[0])] + CapsToCbor(cs[1..])
  }

  function CapsFromCbor(vs: seq<Value>): Result<seq<Capability>> {
    if vs == [] then
      Ok([])
    else
      match (CapFromCbor(vs[0]), CapsFromCbor(vs[1..]))
      case (Ok(c), Ok(cs)) => Ok([c] + cs)
      case _ => Err
  }

  function ReceivedCaps(cs: seq<Capability>): (r: seq<Capability>)
    ensures |r| == |cs| && forall i :: 0 <= i < |cs| ==> r[i] == ReceivedCap(cs[i])
  {
    if cs == [] then [] else [ReceivedCap(cs[0])] + ReceivedCaps(cs[1..])
  }

  lemma {:induction false} CapsDecode(cs: seq<Capability>)
    ensures CapsFromCbor(CapsToCbor(cs)) == Ok(ReceivedCaps(cs))
  {
    if cs != [] {
      CapDecodes(cs[0]);
      CapsDecode(cs[1..]);
      assert CapsToCbor(cs)[1..] == CapsToCbor(cs[1..]);
    }
  }

  function ManifestEntries(m: Manifest): seq<Entry> {
    [Entry(Integer(PROTOCOL_VERSION), Integer(m.protocolVersion)),
     Entry(Integer(PEER_ID), Value.Bytes(m.peerId)),
     Entry(Integer(SEQUENCE_NUM), Integer(m.sequenceNum)),
     Entry(Integer(CAPABILITIES), Value.Array(CapsToCbor(SortCapabilities(m.capabilities)))),
     Entry(Integer(MANIFEST_HASH), Value.Bytes(m.personalHash)),
     Entry(Integer(HASH_ALGORITHM), Value.Text(m.hashAlgorithm))]
  }

  function ManifestToCbor(m: Manifest): Value {
    Map(ManifestEntries(m))
  }

  function ManifestFromCbor(v: Value): Result<Manifest> {
    if !v.Map? then
      Err
    else
      var es := v.entries;
      match (GetInt(es, PROTOCOL_VERSION), GetBytes(es, PEER_ID), GetInt(es, SEQUENCE_NUM))
      case (Some(version), Some(peer), Some(num)) =>
        (match (GetArray(es, CAPABILITIES), GetBytes(es, MANIFEST_HASH), GetText(es, HASH_ALGORITHM))
         case (Some(vs), Some(hash), Some(algorithm)) =>
           (match CapsFromCbor(vs)
            case Ok(caps) =>
              if |peer| != PEER_ID_LEN then Err else Ok(Manifest(version, peer, num, caps, hash, algorithm))
            case Err => Err)
         case _ => Err)
      case _ => Err
  }

  /** The manifest decoded from `m`'s encoding. */
  function ReceivedManifest(m: Manifest): Manifest {
    m.(capabilities := ReceivedCaps(SortCapabilities(m.capabilities)))
  }

  lemma ManifestKeysAscend(m: Manifest)
    ensures AscendingKeys(ManifestEntries(m))
  {
    hide CapsToCbor, SortCapabilities;
    var es := ManifestEntries(m);
    assert es[0].key.i == 1 && es[1].key.i == 2 && es[2].key.i == 3;
    assert es[3].key.i == 4 && es[4].key.i == 5 && es[5].key.i == 6;
  }

  lemma ManifestScalars(m: Manifest)
    ensures GetInt(ManifestEntries(m), PROTOCOL_VERSION) == Some(m.protocolVersion)
    ensures GetBytes(ManifestEntries(m), PEER_ID) == Some(m.peerId)
    ensures GetInt(ManifestEntries(m), SEQUENCE_NUM) == Some(m.sequenceNum)
  {
    ManifestKeysAscend(m);
    LookupAt(ManifestEntries(m), 0);
    LookupAt(ManifestEntries(m), 1);
    LookupAt(ManifestEntries(m), 2);
  }

  lemma ManifestRest(m: Manifest)
    ensures GetArray(ManifestEntries(m), CAPABILITIES) == Some(CapsToCbor(SortCapabilities(m.capabilities)))
    ensures GetBytes(ManifestEntries(m), MANIFEST_HASH) == Some(m.personalHash)
    ensures GetText(ManifestEntries(m), HASH_ALGORITHM) == Some(m.hashAlgorithm)
  {
    ManifestKeysAscend(m);
    LookupAt(ManifestEntries(m), 3);
    LookupAt(ManifestEntries(m), 4);
    LookupAt(ManifestEntries(m), 5);
  }

  lemma ManifestDecodes(m: Manifest)
    ensures ManifestFromCbor(ManifestToCbor(m)) == Ok(ReceivedManifest(m))
  {
    ManifestScalars(m);
    ManifestRest(m);
    CapsDecode(SortCapabilities(m.capabilities));
  }

  predicate ManifestWireSafe(m: Manifest) {
    forall c :: c in m.capabilities && c.scope.Some? ==> WireSafe(c.scope.value)
  }

  lemma ReceivedCapIsSame(c: Capability)
    ensures ReceivedCap(c) == c <==> (c.scope.Some? ==> WireSafe(c.scope.value))
  {
    if c.scope.Some? {
      ReceivedScopeIsSame(c.scope.value);
    }
  }

  lemma ReceivedCapsAreSame(cs: seq<Capability>)
    ensures ReceivedCaps(cs) == cs <==> forall i :: 0 <= i < |cs| ==> ReceivedCap(cs[i]) == cs[i]
  {
  }

  /** Decoding loses nothing but the declaration order exactly when every scope is wire safe. */
  lemma ReceivedManifestIsSorted(m: Manifest)
    ensures ReceivedManifest(m) == m.(capabilities := SortCapabilities(m.capabilities)) <==> ManifestWireSafe(m)
  {
    var cs := SortCapabilities(m.capabilities);
    SortByMembers(m.capabilities, NameLe);
    ReceivedCapsAreSame(cs);
    forall c | c in cs
      ensures ReceivedCap(c) == c <==> (c.scope.Some? ==> WireSafe(c.scope.value))
    {
      ReceivedCapIsSame(c);
    }
    assert (forall i :: 0 <= i < |cs| ==> ReceivedCap(cs[i]) == cs[i]) <==> forall c :: c in cs ==> ReceivedCap(c) == c;
  }

  // ── Messages ──────────────────────────────────────────────────────────────

  const MESSAGE_TYPE: U64 := 1
  const MANIFEST: U64 := 2
  const PERSONAL_HASH: U64 := 3
  const ACTIVE_SET: U64 := 4
  const ACCEPTED_PARAMS: U64 := 5
  const REASON: U64 := 6
  const TIMESTAMP: U64 := 7
  const PAYLOAD: U64 := 8

  function TextsToCbor(ts: seq<Str>): seq<Value> {
    if ts == [] then [] else [Value.Text(ts[0])] + TextsToCbor(ts[1..])
  }

  function TextsFromCbor(vs: seq<Value>): Result<seq<Str>> {
    if vs == [] then Ok([])
    else if !vs[0].Text? then Err
    else match TextsFromCbor(vs[1..]) case Ok(ts) => Ok([vs[0].t] + ts) case Err => Err
  }

  lemma {:induction false} TextsRoundTrip(ts: seq<Str>)
    ensures TextsFromCbor(TextsToCbor(ts)) == Ok(ts)
  {
    if ts != [] {
      TextsRoundTrip(ts[1..]);
      assert TextsToCbor(ts)[1..] == TextsToCbor(ts[1..]);
      HeadSplit(ts);
    }
  }

  function ParamsEntries(ns: seq<Str>, p: Params): (r: seq<Entry>)
    requires forall n :: n in ns ==> n in p
    ensures |r| == |ns|
    ensures forall i :: 0 <= i < |ns| ==> r[i] == Entry(Value.Text(ns[i]), ScopeToCbor(p[ns[i]]))
  {
    if ns == [] then [] else [Entry(Value.Text(ns[0]), ScopeToCbor(p[ns[0]]))] + ParamsEntries(ns[1..], p)
  }

  function ParamsToCbor(p: Params): seq<Entry> {
    ParamsEntries(NamesInOrder(p.Keys), p)
  }

  /** Entries in order; keys that are not text are skipped, a value that is not a map is an error. */
  function ParamsFromCbor(es: seq<Entry>): Result<Params> {
    if es == [] then
      Ok(map[])
    else
      var last := es[|es| - 1];
      match ParamsFromCbor(es[..|es| - 1])
      case Err => Err
      case Ok(m) =>
        if !last.key.Text? then Ok(m)
        else match ScopeFromCbor(last.val) case Ok(s) => Ok(m[last.key.t := s]) case Err => Err
  }

  /** The CONFIRM decoder's loop over the parameter map. */
  method DecodeParams(es: seq<Entry>) returns (r: Result<Params>)
    ensures r == ParamsFromCbor(es)
  {
    var out: Params := map[];
    for i := 0 to |es|
      invariant ParamsFromCbor(es[..i]) == Ok(out)
    {
      assert es[..i + 1][..i] == es[..i];
      if es[i].key.Text? {
        var scope := DecodeScope(es[i].val);
        if scope.Err? {
          ParamsFromCborFails(es, i + 1);
          return Err;
        }
        out := out[es[i].key.t := scope.value];
      }
    }
    assert es[..|es|] == es;
    return Ok(out);
  }

  lemma {:induction false} ParamsFromCborFails(es: seq<Entry>, n: nat)
    requires n <= |es| && ParamsFromCbor(es[..n]).Err?
    ensures ParamsFromCbor(es).Err?
    decreases |es| - n
  {
    if n < |es| {
      assert es[..n + 1][..n] == es[..n];
      ParamsFromCborFails(es, n + 1);
    } else {
      assert es[..n] == es;
    }
  }

  function ReceivedParams(p: Params): Params {
    map n | n in p :: ReceivedScope(p[n])
  }

  lemma ParamsFromSnoc(es: seq<Entry>, n: Str, v: Value, s: ScopeParams)
    requires ScopeFromCbor(v) == Ok(s)
    ensures var before := ParamsFromCbor(es);
            ParamsFromCbor(es + [Entry(Value.Text(n), v)]) == if before.Ok? then Ok(before.value[n := s]) else Err
  {
    hide ScopeFromCbor;
    var longer := es + [Entry(Value.Text(n), v)];
    assert longer[|longer| - 1] == Entry(Value.Text(n), v) && longer[..|longer| - 1] == es;
  }

  lemma ParamsEntriesLast(ns: seq<Str>, p: Params)
    requires ns != [] && forall n :: n in ns ==> n in p
    ensures var k := |ns| - 1;
            ParamsEntries(ns, p) == ParamsEntries(ns[..k], p) + [Entry(Value.Text(ns[k]), ScopeToCbor(p[ns[k]]))]
  {
    hide ScopeToCbor, ParamsEntries;
  }

  lemma ParamsDecodeLast(ns: seq<Str>, p: Params)
    requires ns != [] && forall n :: n in ns ==> n in p
    ensures var k := |ns| - 1;
            var before := ParamsFromCbor(ParamsEntries(ns[..k], p));
            ParamsFromCbor(ParamsEntries(ns, p))
            == if before.Ok? then Ok(before.value[ns[k] := ReceivedScope(p[ns[k]])]) else Err
  {
    hide ScopeToCbor, ScopeFromCbor, ReceivedScope, ParamsEntries, ParamsFromCbor;
    var k := |ns| - 1;
    ParamsEntriesLast(ns, p);
    ScopeDecodes(p[ns[k]]);
    ParamsFromSnoc(ParamsEntries(ns[..k], p), ns[k], ScopeToCbor(p[ns[k]]), ReceivedScope(p[ns[k]]));
  }

  /** `out` holds the received scope of exactly the names in `ns`. */
  ghost predicate Collected(out: Result<Params>, ns: seq<Str>, p: Params)
    requires forall n :: n in ns ==> n in p
  {
    && out.Ok?
    && (forall n :: n in out.value <==> n in ns)
    && (forall n :: n in ns ==> out.value[n] == ReceivedScope(p[n]))
  }

  lemma CollectedSnoc(m: Params, ns: seq<Str>, n: Str, p: Params)
    requires n in p && forall x :: x in ns ==> x in p
    requires Collected(Ok(m), ns, p)
    ensures Collected(Ok(m[n := ReceivedScope(p[n])]), ns + [n], p)
  {
    hide ReceivedScope;
  }

  lemma {:induction false} ParamsEntriesDecode(ns: seq<Str>, p: Params)
    requires forall n :: n in ns ==> n in p
    ensures Collected(ParamsFromCbor(ParamsEntries(ns, p)), ns, p)
  {
    if ns != [] {
      hide ParamsFromCbor, ParamsEntries, ReceivedScope, Collected;
      var k := |ns| - 1;
      ParamsEntriesDecode(ns[..k], p);
      ParamsDecodeLast(ns, p);
      CollectedOk(ParamsFromCbor(ParamsEntries(ns[..k], p)), ns[..k], p);
      CollectedSnoc(ParamsFromCbor(ParamsEntries(ns[..k], p)).value, ns[..k], ns[k], p);
      LastSplit(ns);
    }
  }

  lemma CollectedOk(out: Result<Params>, ns: seq<Str>, p: Params)
    requires forall n :: n in ns ==> n in p
    requires Collected(out, ns, p)
    ensures out.Ok? && out == Ok(out.value)
  {
  }

  lemma CollectedAll(out: Result<Params>, ns: seq<Str>, p: Params)
    requires forall n :: n in ns <==> n in p
    requires Collected(out, ns, p)
    ensures out == Ok(ReceivedParams(p))
  {
    hide ReceivedScope;
    assert forall n :: n in p ==> n in ns;
    assert out.value.Keys == p.Keys;
    assert out.value == ReceivedParams(p);
  }

  lemma ParamsDecode(p: Params)
    ensures ParamsFromCbor(ParamsToCbor(p)) == Ok(ReceivedParams(p))
  {
    ParamsEntriesDecode(NamesInOrder(p.Keys), p);
    CollectedAll(ParamsFromCbor(ParamsToCbor(p)), NamesInOrder(p.Keys), p);
  }

  /**
   * A value written to bytes and read back, as the OFFER paths do. The source panics
   * or fails if that does not give a value; `ReparseIsIdentity` excludes it.
   */
  function Reparse(v: Value): Value {
    match DecodeValue(EncodeValue(v))
    case Some((w, _)) => w
    case None => Null
  }

  lemma ReparseIsIdentity(v: Value)
    requires |EncodeValue(v)| < MAX_LEN
    ensures Reparse(v) == v
  {
    ValueRoundTrip(v, []);
    assert EncodeValue(v) + [] == EncodeValue(v);
  }

  function ParamsEntry(p: Option<Params>): seq<Entry> {
    match p
    case Some(m) => [Entry(Integer(ACCEPTED_PARAMS), Map(ParamsToCbor(m)))]
    case None => []
  }

  function TypeEntry(t: U64): Entry {
    Entry(Integer(MESSAGE_TYPE), Integer(t))
  }

  function MessageEntries(m: Message): seq<Entry> {
    match m
    case Offer(manifest) =>
      [TypeEntry(1), Entry(Integer(MANIFEST), Reparse(ManifestToCbor(manifest)))]
    case Confirm(hash, active, params) =>
      [TypeEntry(2),
       Entry(Integer(PERSONAL_HASH), Value.Bytes(hash)),
       Entry(Integer(ACTIVE_SET), Value.Array(TextsToCbor(active)))] + ParamsEntry(params)
    case Close(hash, reason) =>
      [TypeEntry(3), Entry(Integer(PERSONAL_HASH), Value.Bytes(hash)),
       Entry(Integer(REASON), Integer(ReasonCode(reason)))]
    case Ping(timestamp) => [TypeEntry(4), Entry(Integer(TIMESTAMP), Integer(timestamp))]
    case Pong(timestamp) => [TypeEntry(5), Entry(Integer(TIMESTAMP), Integer(timestamp))]
    case CapabilityMsg(t, payload) => [TypeEntry(t), Entry(Integer(PAYLOAD), Value.Bytes(payload))]
  }

  /** `to_cbor_bytes` */
  function ToPayload(m: Message): Octets {
    EncodeValue(Map(MessageEntries(m)))
  }

  function FirstAt(es: seq<Entry>, key: U64): Option<Value> {
    if es == [] then None else if es[0].key == Integer(key) then Some(es[0].val) else FirstAt(es[1..], key)
  }

  function WithoutType(es: seq<Entry>): seq<Entry> {
    if es == [] then []
    else (if es[0].key == Integer(MESSAGE_TYPE) then [] else [es[0]]) + WithoutType(es[1..])
  }

  function CapabilityFromEntries(t: U64, es: seq<Entry>): Message {
    match GetBytes(es, PAYLOAD)
    case Some(b) => CapabilityMsg(t, b)
    case None => CapabilityMsg(t, EncodeValue(Map(WithoutType(es))))
  }

  function OfferFromEntries(es: seq<Entry>): Result<Message> {
    match FirstAt(es, MANIFEST)
    case None => Err
    case Some(v) => match ManifestFromCbor(Reparse(v)) case Ok(m) => Ok(Offer(m)) case Err => Err
  }

  function ConfirmFromEntries(es: seq<Entry>): Result<Message> {
    match (GetBytes(es, PERSONAL_HASH), GetArray(es, ACTIVE_SET))
    case (Some(hash), Some(vs)) =>
      (match TextsFromCbor(vs)
       case Err => Err
       case Ok(active) =>
         match GetMap(es, ACCEPTED_PARAMS)
         case None => Ok(Confirm(hash, active, None))
         case Some(ps) => match ParamsFromCbor(ps) case Ok(p) => Ok(Confirm(hash, active, Some(p))) case Err => Err)
    case _ => Err
  }

  function CloseFromEntries(es: seq<Entry>): Result<Message> {
    match GetBytes(es, PERSONAL_HASH)
    case None => Err
    case Some(hash) =>
      Ok(Close(hash, match ReasonFromCode(OrZero(GetInt(es, REASON))) case Some(r) => r case None => Error))
  }

  function FromEntries(es: seq<Entry>): Result<Message> {
    match GetInt(es, MESSAGE_TYPE)
    case None => Err
    case Some(t) =>
      if !ProtocolType(t) then Ok(CapabilityFromEntries(t, es))
      else if t == 1 then OfferFromEntries(es)
      else if t == 2 then ConfirmFromEntries(es)
      else if t == 3 then CloseFromEntries(es)
      else match GetInt(es, TIMESTAMP)
           case None => Err
           case Some(timestamp) => Ok(if t == 4 then Ping(timestamp) else Pong(timestamp))
  }

  /** `from_cbor_bytes`; bytes after the first data item are ignored. */
  function FromPayload(b: Octets): Result<Message> {
    match DecodeValue(b)
    case None => Err
    case Some((v, _)) => if v.Map? then FromEntries(v.entries) else Err
  }

  // ── Message round trip ────────────────────────────────────────────────────

  /** The message decoded from `m`'s encoding. */
  function ReceivedMessage(m: Message): Message {
    match m
    case Offer(manifest) => Offer(ReceivedManifest(manifest))
    case Confirm(hash, active, Some(p)) => Confirm(hash, active, Some(ReceivedParams(p)))
    case _ => m
  }

  /** Not a capability message dressed as one of the five protocol messages. */
  predicate Routable(m: Message) {
    m.CapabilityMsg? ==> !ProtocolType(m.messageType)
  }

  lemma MessageKeysAscend(m: Message)
    ensures AscendingKeys(MessageEntries(m))
  {
    hide Reparse, ManifestToCbor, TextsToCbor, ParamsToCbor, ReasonCode;
  }

  lemma TypeLookup(m: Message)
    ensures GetInt(MessageEntries(m), MESSAGE_TYPE)
            == Some(match m
                    case Offer(_) => 1
                    case Confirm(_, _, _) => 2
                    case Close(_, _) => 3
                    case Ping(_) => 4
                    case Pong(_) => 5
                    case CapabilityMsg(t, _) => t)
  {
    MessageKeysAscend(m);
    LookupAt(MessageEntries(m), 0);
  }

  lemma OfferDecodes(manifest: Manifest)
    requires |EncodeValue(ManifestToCbor(manifest))| < MAX_LEN
    ensures OfferFromEntries(MessageEntries(Offer(manifest))) == Ok(Offer(ReceivedManifest(manifest)))
  {
    var es := MessageEntries(Offer(manifest));
    assert FirstAt(es[1..], MANIFEST) == Some(es[1].val);
    ReparseIsIdentity(ManifestToCbor(manifest));
    ManifestDecodes(manifest);
  }

  lemma ConfirmLookups(m: Message)
    requires m.Confirm?
    ensures GetBytes(MessageEntries(m), PERSONAL_HASH) == Some(m.personalHash)
    ensures GetArray(MessageEntries(m), ACTIVE_SET) == Some(TextsToCbor(m.activeSet))
  {
    hide Lookup, AscendingKeys, TextsToCbor, ParamsEntry;
    MessageKeysAscend(m);
    LookupAt(MessageEntries(m), 1);
    LookupAt(MessageEntries(m), 2);
  }

  lemma ConfirmParamsLookup(m: Message)
    requires m.Confirm?
    ensures GetMap(MessageEntries(m), ACCEPTED_PARAMS)
            == if m.acceptedParams.Some? then Some(ParamsToCbor(m.acceptedParams.value)) else None
  {
    if m.acceptedParams.Some? {
      MessageKeysAscend(m);
      LookupAt(MessageEntries(m), 3);
    } else {
      LookupMissing(MessageEntries(m), ACCEPTED_PARAMS, MapKind);
    }
  }

  lemma ConfirmDecodes(m: Message)
    requires m.Confirm?
    ensures ConfirmFromEntries(MessageEntries(m)) == Ok(ReceivedMessage(m))
  {
    ConfirmLookups(m);
    ConfirmParamsLookup(m);
    TextsRoundTrip(m.activeSet);
    if m.acceptedParams.Some? {
      ParamsDecode(m.acceptedParams.value);
    }
  }

  lemma CloseDecodes(m: Message)
    requires m.Close?
    ensures CloseFromEntries(MessageEntries(m)) == Ok(m)
  {
    MessageKeysAscend(m);
    LookupAt(MessageEntries(m), 1);
    LookupAt(MessageEntries(m), 2);
  }

  /** The entries of every routable message decode to what `ReceivedMessage` says. */
  lemma EntriesDecode(m: Message)
    requires Routable(m)
    requires m.Offer? ==> |EncodeValue(ManifestToCbor(m.manifest))| < MAX_LEN
    ensures FromEntries(MessageEntries(m)) == Ok(ReceivedMessage(m))
  {
    TypeLookup(m);
    var es := MessageEntries(m);
    match m
    case Offer(manifest) => OfferDecodes(manifest);
    case Confirm(_, _, _) => ConfirmDecodes(m);
    case Close(_, _) => CloseDecodes(m);
    case _ =>
      MessageKeysAscend(m);
      LookupAt(es, 1);
  }

  /** Sizes a Rust vector can have; larger buffers cannot be built. */
  predicate Allocatable(m: Message) {
    && |ToPayload(m)| < MAX_LEN
    && (m.Offer? ==> |EncodeValue(ManifestToCbor(m.manifest))| < MAX_LEN)
  }

  lemma PayloadDecodes(m: Message)
    requires Routable(m) && Allocatable(m)
    ensures FromPayload(ToPayload(m)) == Ok(ReceivedMessage(m))
  {
    ValueRoundTrip(Map(MessageEntries(m)), []);
    assert ToPayload(m) + [] == ToPayload(m);
    EntriesDecode(m);
  }

  /** A cut-off payload never decodes. */
  lemma PayloadPrefixFails(m: Message, k: nat)
    requires Allocatable(m) && k < |ToPayload(m)|
    ensures FromPayload(ToPayload(m)[..k]).Err?
  {
    PrefixFree(Map(MessageEntries(m)), k);
  }

  /** The messages the wire carries without loss. */
  predicate Lossless(m: Message) {
    match m
    case Offer(manifest) =>
      manifest.capabilities == SortCapabilities(manifest.capabilities) && ManifestWireSafe(manifest)
    case Confirm(_, _, Some(p)) => forall n :: n in p ==> WireSafe(p[n])
    case CapabilityMsg(t, _) => !ProtocolType(t)
    case _ => true
  }

  lemma ReceivedManifestIsSame(m: Manifest)
    ensures ReceivedManifest(m) == m <==> Lossless(Offer(m))
  {
    ReceivedManifestIsSorted(m);
    if ReceivedManifest(m) == m {
      var cs := SortCapabilities(m.capabilities);
      forall c | c in m.capabilities && c.scope.Some?
        ensures WireSafe(c.scope.value)
      {
        var i :| 0 <= i < |cs| && ReceivedCaps(cs)[i] == c;
        assert c == ReceivedCap(cs[i]);
      }
    }
  }

  lemma ReceivedParamsAreSame(p: Params)
    ensures ReceivedParams(p) == p <==> forall n :: n in p ==> WireSafe(p[n])
  {
    forall n | n in p
      ensures ReceivedParams(p)[n] == p[n] <==> WireSafe(p[n])
    {
      ReceivedScopeIsSame(p[n]);
    }
    assert ReceivedParams(p) == p <==> forall n :: n in p ==> ReceivedParams(p)[n] == p[n];
  }

  /**
   * Decoding an encoded message returns it exactly when its extension keys are 3 or above,
   * an OFFER's declarations are already sorted, and a capability message has a type outside 1 to 5.
   */
  lemma MessageRoundTrip(m: Message)
    requires Allocatable(m)
    ensures FromPayload(ToPayload(m)) == Ok(m) <==> Lossless(m)
  {
    if Routable(m) {
      PayloadDecodes(m);
      match m
      case Offer(manifest) => ReceivedManifestIsSame(manifest);
      case Confirm(_, _, Some(p)) => ReceivedParamsAreSame(p);
      case _ =>
    } else {
      ValueRoundTrip(Map(MessageEntries(m)), []);
      assert ToPayload(m) + [] == ToPayload(m);
      TypeLookup(m);
      ProtocolTypesAreNotCapabilities(MessageEntries(m), m.messageType);
    }
  }

  lemma ProtocolTypesAreNotCapabilities(es: seq<Entry>, t: U64)
    requires GetInt(es, MESSAGE_TYPE) == Some(t) && ProtocolType(t)
    ensures FromEntries(es).Ok? ==> !FromEntries(es).value.CapabilityMsg?
  {
  }
}
