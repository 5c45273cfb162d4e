/** Messages as CBOR (node/p2pcd-types/src/cbor.rs). */
module Codec {
  import opened Prelude
  import opened Sorting
  import opened Scope
  import opened Cbor

  // ── Lookups ───────────────────────────────────────────────────────────────

  datatype Kind = IntKind | BoolKind | TextKind | BytesKind | ArrayKind | MapKind | NullKind

  function KindOf(v: Value): Kind {
    match v
    case Integer(_) => IntKind
    case Bool(_) => BoolKind
    case Text(_) => TextKind
    case Bytes(_) => BytesKind
    case Array(_) => ArrayKind
    case Map(_) => MapKind
    case Null => NullKind
  }

  /** The first entry under an integer key whose value has the wanted kind. */
  function Lookup(es: seq<Entry>, key: U64, kind: Kind): (r: Option<Value>)
    ensures r.Some? ==> KindOf(r.value) == kind
  {
    if es == [] then None
    else if es[0].key == Integer(key) && KindOf(es[0].val) == kind then Some(es[0].val)
    else Lookup(es[1..], key, kind)
  }

  /** The shape of the source's six `map_get_*` loops. */
  method MapGet(es: seq<Entry>, key: U64, kind: Kind) returns (r: Option<Value>)
    ensures r == Lookup(es, key, kind)
  {
    for i := 0 to |es|
      invariant Lookup(es, key, kind) == Lookup(es[i..], key, kind)
    {
      if es[i].key == Integer(key) && KindOf(es[i].val) == kind {
        return Some(es[i].val);
      }
      assert es[i..][1..] == es[i + 1..];
    }
    return None;
  }

  function AsU64(i: int): Option<U64> {
    if 0 <= i < 0x1_0000_0000_0000_0000 then Some(i) else None
  }

  function GetInt(es: seq<Entry>, key: U64): Option<U64> {
    match Lookup(es, key, IntKind)
    case Some(v) => AsU64(v.i)
    case None => None
  }

  function GetBytes(es: seq<Entry>, key: U64): Option<Octets> {
    match Lookup(es, key, BytesKind)
    case Some(v) => Some(v.bs)
    case None => None
  }

  function GetText(es: seq<Entry>, key: U64): Option<Str> {
    match Lookup(es, key, TextKind)
    case Some(v) => Some(v.t)
    case None => None
  }

  function GetArray(es: seq<Entry>, key: U64): Option<seq<Value>> {
    match Lookup(es, key, ArrayKind)
    case Some(v) => Some(v.items)
    case None => None
  }

  function GetMap(es: seq<Entry>, key: U64): Option<seq<Entry>> {
    match Lookup(es, key, MapKind)
    case Some(v) => Some(v.entries)
    case None => None
  }

  // ── Scope values ──────────────────────────────────────────────────────────

  function ScopeValueToCbor(v: ScopeValue): Value
    decreases v, 0
  {
    match v
    case Uint(n) => Value.Integer(n)
    case Text(t) => Value.Text(t)
    case Bool(b) => Value.Bool(b)
    case Bytes(bs) => Value.Bytes(bs)
    case Array(items) => Value.Array(ScopeValuesToCbor(items))
  }

  function ScopeValuesToCbor(vs: seq<ScopeValue>): seq<Value>
    decreases vs, 0
  {
    if vs == [] then [] else [ScopeValueToCbor(vs[0])] + ScopeValuesToCbor(vs[1..])
  }

  function ScopeValueFromCbor(v: Value): Option<ScopeValue>
    decreases v, 0
  {
    match v
    case Integer(i) => if i >= 0 then Some(Uint(i)) else None
    case Text(t) => Some(ScopeValue.Text(t))
    case Bool(b) => Some(ScopeValue.Bool(b))
    case Bytes(bs) => Some(ScopeValue.Bytes(bs))
    case Array(items) => Some(ScopeValue.Array(ScopeValuesFromCbor(items)))
    case _ => None
  }

  /** `filter_map`: what does not convert is dropped. */
  function ScopeValuesFromCbor(vs: seq<Value>): seq<ScopeValue>
    decreases vs, 0
  {
    if vs == [] then []
    else
      match ScopeValueFromCbor(vs[0])
      case Some(s) => [s] + ScopeValuesFromCbor(vs[1..])
      case None => ScopeValuesFromCbor(vs[1..])
  }

  lemma {:induction false} ScopeValueRoundTrip(v: ScopeValue)
    ensures ScopeValueFromCbor(ScopeValueToCbor(v)) == Some(v)
    decreases v, 0
  {
    if v.Array? {
      ScopeValuesRoundTrip(v.items);
    }
  }

  lemma {:induction false} ScopeValuesRoundTrip(vs: seq<ScopeValue>)
    ensures ScopeValuesFromCbor(ScopeValuesToCbor(vs)) == vs
    decreases vs, 0
  {
    if vs != [] {
      ScopeValueRoundTrip(vs[0]);
      ScopeValuesRoundTrip(vs[1..]);
      var head, tail := ScopeValueToCbor(vs[0]), ScopeValuesToCbor(vs[1..]);
      assert ([head] + tail)[1..] == tail;
      assert vs == [vs[0]] + vs[1..];
    }
  }

  // ── Scopes ────────────────────────────────────────────────────────────────

  const RATE_LIMIT: U64 := 1
  const TTL: U64 := 2

  function LimitEntry(key: U64, n: U64): seq<Entry> {
    if n > 0 then [Entry(Integer(key), Integer(n))] else []
  }

  function ExtensionEntries(ks: seq<U64>, ext: Extensions): (r: seq<Entry>)
    requires forall k :: k in ks ==> k in ext
    ensures |r| == |ks|
    ensures forall i :: 0 <= i < |ks| ==> r[i] == Entry(Integer(ks[i]), ScopeValueToCbor(ext[ks[i]]))
  {
    if ks == [] then []
    else [Entry(Integer(ks[0]), ScopeValueToCbor(ext[ks[0]]))] + ExtensionEntries(ks[1..], ext)
  }

  function ScopeEntries(s: ScopeParams): seq<Entry> {
    LimitEntry(RATE_LIMIT, s.rateLimit) + LimitEntry(TTL, s.ttl)
    + ExtensionEntries(KeysInOrder(s.extensions.Keys), s.extensions)
  }

  function ScopeToCbor(s: ScopeParams): Value {
    Map(ScopeEntries(s))
  }

  /** The extension an entry contributes, if any: only keys above 2 whose value converts. */
  function ExtensionOf(e: Entry): Option<(U64, ScopeValue)> {
    if e.key.Integer? && TTL < e.key.i then
      match ScopeValueFromCbor(e.val)
      case Some(v) => Some((e.key.i, v))
      case None => None
    else
      None
  }

  /** The extensions collected from entries in order; a later entry overwrites an earlier one. */
  function CollectExtensions(es: seq<Entry>): Extensions {
    if es == [] then map[]
    else
      var m := CollectExtensions(es[..|es| - 1]);
      match ExtensionOf(es[|es| - 1])
      case Some((k, v)) => m[k := v]
      case None => m
  }

  function OrZero(o: Option<U64>): U64 {
    match o case Some(n) => n case None => 0
  }

  function ScopeFromEntries(es: seq<Entry>): ScopeParams {
    ScopeParams(OrZero(GetInt(es, RATE_LIMIT)), OrZero(GetInt(es, TTL)), CollectExtensions(es))
  }

  function ScopeFromCbor(v: Value): Result<ScopeParams> {
    if v.Map? then Ok(ScopeFromEntries(v.entries)) else Err
  }

  /** `scope_from_cbor_value`: the loop that fills the extension map. */
  method DecodeScope(v: Value) returns (r: Result<ScopeParams>)
    ensures r == ScopeFromCbor(v)
  {
    if !v.Map? {
      return Err;
    }
    var es := v.entries;
    var extensions: Extensions := map[];
    for i := 0 to |es|
      invariant extensions == CollectExtensions(es[..i])
    {
      assert es[..i + 1][..i] == es[..i];
      if es[i].key.Integer? && es[i].key.i > TTL {
        var sv := ScopeValueFromCbor(es[i].val);
        if sv.Some? {
          extensions := extensions[es[i].key.i := sv.value];
        }
      }
    }
    assert es[..|es|] == es;
    var rate := MapGet(es, RATE_LIMIT, IntKind);
    var ttl := MapGet(es, TTL, IntKind);
    r := Ok(ScopeParams(
              OrZero(if rate.Some? then AsU64(rate.value.i) else None),
              OrZero(if ttl.Some? then AsU64(ttl.value.i) else None),
              extensions));
  }

  // ── What a receiver sees of a scope ───────────────────────────────────────

  /** An extension under a limit's key is read as that limit when the limit itself is absent. */
  function ReceivedLimit(n: U64, ext: Extensions, key: U64): U64 {
    if n > 0 then n else if key in ext && ext[key].Uint? then ext[key].n else 0
  }

  /** The scope decoded from `s`'s encoding. */
  function ReceivedScope(s: ScopeParams): ScopeParams {
    ScopeParams(
      ReceivedLimit(s.rateLimit, s.extensions, RATE_LIMIT),
      ReceivedLimit(s.ttl, s.extensions, TTL),
      AboveLimits(s.extensions))
  }

  function AboveLimits(ext: Extensions): Extensions {
    map k | k in ext && TTL < k :: ext[k]
  }

  /** Extension keys 3 and above are the ones the encoding reserves for extensions. */
  predicate WireSafe(s: ScopeParams) {
    forall k :: k in s.extensions ==> TTL < k
  }

  lemma {:induction false} LookupAppend(a: seq<Entry>, b: seq<Entry>, key: U64, kind: Kind)
    ensures Lookup(a + b, key, kind)
            == if Lookup(a, key, kind).Some? then Lookup(a, key, kind) else Lookup(b, key, kind)
  {
    if a == [] {
      assert a + b == b;
    } else {
      LookupAppend(a[1..], b, key, kind);
      assert (a + b)[1..] == a[1..] + b;
    }
  }

  lemma {:induction false} LookupExtension(ks: seq<U64>, ext: Extensions, key: U64)
    requires forall k :: k in ks ==> k in ext
    requires forall i, j :: 0 <= i < j < |ks| ==> ks[i] != ks[j]
    ensures Lookup(ExtensionEntries(ks, ext), key, IntKind)
            == if key in ks && ext[key].Uint? then Some(Integer(ext[key].n)) else None
  {
    if ks != [] {
      LookupExtension(ks[1..], ext, key);
      assert ExtensionEntries(ks, ext)[1..] == ExtensionEntries(ks[1..], ext);
    }
  }

  lemma LimitLookup(limits: seq<Entry>, ext: Extensions, key: U64)
    ensures Lookup(limits + ExtensionEntries(KeysInOrder(ext.Keys), ext), key, IntKind)
            == if Lookup(limits, key, IntKind).Some? then Lookup(limits, key, IntKind)
               else if key in ext && ext[key].Uint? then Some(Integer(ext[key].n))
               else None
  {
    var ks := KeysInOrder(ext.Keys);
    LookupAppend(limits, ExtensionEntries(ks, ext), key, IntKind);
    LookupExtension(ks, ext, key);
  }

  lemma LimitEntriesLookup(rate: U64, ttl: U64)
    ensures Lookup(LimitEntry(RATE_LIMIT, rate) + LimitEntry(TTL, ttl), RATE_LIMIT, IntKind)
            == if rate > 0 then Some(Integer(rate)) else None
    ensures Lookup(LimitEntry(RATE_LIMIT, rate) + LimitEntry(TTL, ttl), TTL, IntKind)
            == if ttl > 0 then Some(Integer(ttl)) else None
  {
    LookupAppend(LimitEntry(RATE_LIMIT, rate), LimitEntry(TTL, ttl), RATE_LIMIT, IntKind);
    LookupAppend(LimitEntry(RATE_LIMIT, rate), LimitEntry(TTL, ttl), TTL, IntKind);
  }

  lemma GetIntScope(s: ScopeParams)
    ensures OrZero(GetInt(ScopeEntries(s), RATE_LIMIT)) == ReceivedScope(s).rateLimit
    ensures OrZero(GetInt(ScopeEntries(s), TTL)) == ReceivedScope(s).ttl
  {
    hide Lookup, LimitEntry, ExtensionEntries, KeysInOrder, AboveLimits, ExtensionOf;
    var limits := LimitEntry(RATE_LIMIT, s.rateLimit) + LimitEntry(TTL, s.ttl);
    LimitEntriesLookup(s.rateLimit, s.ttl);
    LimitLookup(limits, s.extensions, RATE_LIMIT);
    LimitLookup(limits, s.extensions, TTL);
  }

  lemma {:induction false} CollectIgnores(limits: seq<Entry>)
    requires forall e :: e in limits ==> ExtensionOf(e).None?
    ensures CollectExtensions(limits) == map[]
  {
    if limits != [] {
      assert limits[|limits| - 1] in limits;
      CollectIgnores(limits[..|limits| - 1]);
    }
  }

  lemma {:induction false} CollectEntries(limits: seq<Entry>, ks: seq<U64>, ext: Extensions)
    requires forall e :: e in limits ==> ExtensionOf(e).None?
    requires forall k :: k in ks ==> k in ext
    ensures forall k :: k in CollectExtensions(limits + ExtensionEntries(ks, ext)) <==> k in ks && TTL < k
    ensures forall k :: k in CollectExtensions(limits + ExtensionEntries(ks, ext)) ==>
                          CollectExtensions(limits + ExtensionEntries(ks, ext))[k] == ext[k]
  {
    if ks == [] {
      assert limits + ExtensionEntries(ks, ext) == limits;
      CollectIgnores(limits);
    } else {
      var n := |ks| - 1;
      assert forall k :: k in ks <==> k in ks[..n] || k == ks[n];
      CollectEntries(limits, ks[..n], ext);
      CollectLast(limits, ks, ext);
    }
  }

  lemma CollectSnoc(es: seq<Entry>, e: Entry)
    ensures CollectExtensions(es + [e])
            == match ExtensionOf(e)
               case Some((k, v)) => CollectExtensions(es)[k := v]
               case None => CollectExtensions(es)
  {
    hide ExtensionOf;
    assert (es + [e])[..|es + [e]| - 1] == es;
  }

  lemma CollectLast(limits: seq<Entry>, ks: seq<U64>, ext: Extensions)
    requires ks != [] && forall k :: k in ks ==> k in ext
    ensures var n := |ks| - 1;
            var before := CollectExtensions(limits + ExtensionEntries(ks[..n], ext));
            CollectExtensions(limits + ExtensionEntries(ks, ext))
            == if TTL < ks[n] then before[ks[n] := ext[ks[n]]] else before
  {
    hide CollectExtensions, ExtensionEntries, ExtensionOf, ScopeValueToCbor, ScopeValueFromCbor;
    var n := |ks| - 1;
    var last := Entry(Integer(ks[n]), ScopeValueToCbor(ext[ks[n]]));
    ExtensionEntriesLast(ks, ext);
    Associative(limits, ExtensionEntries(ks[..n], ext), [last]);
    CollectSnoc(limits + ExtensionEntries(ks[..n], ext), last);
    ExtensionReadsBack(ks[n], ext[ks[n]]);
  }

  lemma ExtensionEntriesLast(ks: seq<U64>, ext: Extensions)
    requires ks != [] && forall k :: k in ks ==> k in ext
    ensures var n := |ks| - 1;
            ExtensionEntries(ks, ext)
            == ExtensionEntries(ks[..n], ext) + [Entry(Integer(ks[n]), ScopeValueToCbor(ext[ks[n]]))]
  {
    hide ScopeValueToCbor;
  }

  lemma ExtensionReadsBack(k: U64, v: ScopeValue)
    ensures ExtensionOf(Entry(Integer(k), ScopeValueToCbor(v))) == if TTL < k then Some((k, v)) else None
  {
    ScopeValueRoundTrip(v);
  }

  lemma CollectScope(s: ScopeParams)
    ensures CollectExtensions(ScopeEntries(s)) == AboveLimits(s.extensions)
  {
    hide ExtensionEntries, KeysInOrder;
    var limits := LimitEntry(RATE_LIMIT, s.rateLimit) + LimitEntry(TTL, s.ttl);
    var ks := KeysInOrder(s.extensions.Keys);
    CollectEntries(limits, ks, s.extensions);
  }

  /** Every scope, whatever its keys, decodes to `ReceivedScope`. */
  lemma ScopeDecodes(s: ScopeParams)
    ensures ScopeFromCbor(ScopeToCbor(s)) == Ok(ReceivedScope(s))
  {
    GetIntScope(s);
    CollectScope(s);
  }

  lemma ReceivedScopeIsSame(s: ScopeParams)
    ensures ReceivedScope(s) == s <==> WireSafe(s)
  {
    if WireSafe(s) {
      assert AboveLimits(s.extensions) == s.extensions;
    } else {
      var k :| k in s.extensions && k <= TTL;
      assert k !in AboveLimits(s.extensions);
    }
  }

  /** The scope encoding is lossless exactly for extension keys 3 and above. */
  lemma ScopeRoundTrip(s: ScopeParams)
    ensures ScopeFromCbor(ScopeToCbor(s)) == Ok(s) <==> WireSafe(s)
  {
    ScopeDecodes(s);
    ReceivedScopeIsSame(s);
  }
}
