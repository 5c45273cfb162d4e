/**
 * Messages byte by byte: which integer stands for what on the wire (node/p2pcd-types/src/wire.rs
 * and message_types.rs).
 */
module WireSamples {
  import opened Prelude
  import opened Scope
  import opened Messages
  import opened Cbor
  import opened Codec
  import opened Wire

  lemma NoEntries()
    ensures EncodeEntries([]) == []
  {
  }

  lemma MapHead(es: seq<Entry>)
    requires |es| < 24
    ensures EncodeValue(Map(es)) == [0xA0 + |es|] + EncodeEntries(es)
  {
    hide EncodeEntries;
  }

  lemma TwoEntries(a: Entry, b: Entry)
    ensures EncodeValue(Map([a, b]))
            == [0xA2] + (EncodeValue(a.key) + EncodeValue(a.val) + (EncodeValue(b.key) + EncodeValue(b.val)))
  {
    hide EncodeValue, EncodeEntries;
    var es := [a, b];
    MapHead(es);
    EntriesOf(es);
    EntriesOf([b]);
    NoEntries();
    assert es[1..] == [b] && [b][1..] == [];
    var last := EncodeValue(b.key) + EncodeValue(b.val);
    assert last + [] == last;
  }

  lemma ThreeEntries(a: Entry, b: Entry, c: Entry)
    ensures EncodeValue(Map([a, b, c]))
            == [0xA3] + (EncodeValue(a.key) + EncodeValue(a.val)
                         + (EncodeValue(b.key) + EncodeValue(b.val) + (EncodeValue(c.key) + EncodeValue(c.val))))
  {
    hide EncodeValue, EncodeEntries;
    var es := [a, b, c];
    MapHead(es);
    EntriesOf(es);
    EntriesOf([b, c]);
    EntriesOf([c]);
    NoEntries();
    assert es[1..] == [b, c] && [b, c][1..] == [c] && [c][1..] == [];
    var last := EncodeValue(c.key) + EncodeValue(c.val);
    assert last + [] == last;
  }

  lemma Small(n: nat)
    requires n < 24
    ensures EncodeValue(Integer(n)) == [n]
  {
  }

  lemma OneByte(b: byte)
    ensures EncodeValue(Value.Bytes([b])) == [0x41, b]
  {
  }

  lemma True()
    ensures EncodeValue(Value.Bool(true)) == [0xF5]
  {
  }

  const X := Ascii("x")

  lemma Letter()
    ensures EncodeValue(Value.Text(X)) == [0x61, 0x78]
  {
  }

  lemma Letters()
    ensures EncodeValue(Value.Array([Value.Text(X)])) == [0x81, 0x61, 0x78]
  {
    Letter();
    var items := [Value.Text(X)];
    ItemsOf(items);
    assert items[1..] == [] && EncodeItems([]) == [];
    assert Head(4, 1) == [0x81];
  }

  /** PING is 4 and PONG 5, under key 1; the timestamp is under key 7. */
  lemma PingPong()
    ensures ToPayload(Ping(9)) == [0xA2, 1, 4, 7, 9]
    ensures ToPayload(Pong(9)) == [0xA2, 1, 5, 7, 9]
  {
    hide EncodeValue;
    Small(1);
    Small(4);
    Small(5);
    Small(7);
    Small(9);
    TwoEntries(Entry(Integer(1), Integer(4)), Entry(Integer(7), Integer(9)));
    TwoEntries(Entry(Integer(1), Integer(5)), Entry(Integer(7), Integer(9)));
  }

  function ReasonBytes(r: CloseReason): Octets {
    match r
    case Normal => [0]
    case NoMatch => [1]
    case AuthFailure => [2]
    case VersionUnsupported => [3]
    case Timeout => [4]
    case Error => [0x18, 255]
  }

  lemma ReasonIs(r: CloseReason)
    ensures EncodeValue(Integer(ReasonCode(r))) == ReasonBytes(r)
  {
    assert BigEndian.ToBe(255, 1) == [255];
  }

  /** CLOSE is 3; the hash is under key 3 and the reason under key 6. */
  lemma Closes(r: CloseReason)
    ensures ToPayload(Close([8], r)) == [0xA3, 1, 3, 3, 0x41, 8, 6] + ReasonBytes(r)
  {
    hide EncodeValue, ReasonCode, ReasonBytes;
    ReasonIs(r);
    OneByte(8);
    Small(1);
    Small(3);
    Small(6);
    ThreeEntries(Entry(Integer(1), Integer(3)), Entry(Integer(3), Value.Bytes([8])),
                 Entry(Integer(6), Integer(ReasonCode(r))));
  }

  lemma OneText()
    ensures TextsToCbor([X]) == [Value.Text(X)]
  {
    assert [X][1..] == [];
  }

  /** CONFIRM is 2; the hash is under key 3 and the active set under key 4. */
  lemma Confirms()
    ensures ToPayload(Confirm([8], [X], None)) == [0xA3, 1, 2, 3, 0x41, 8, 4, 0x81, 0x61, 0x78]
  {
    hide EncodeValue, Ascii, TextsToCbor, X;
    OneText();
    OneByte(8);
    Small(1);
    Small(2);
    Small(3);
    Small(4);
    Letters();
    ThreeEntries(Entry(Integer(1), Integer(2)), Entry(Integer(3), Value.Bytes([8])),
                 Entry(Integer(4), Value.Array([Value.Text(X)])));
    assert MessageEntries(Confirm([8], [X], None))
        == [Entry(Integer(1), Integer(2)), Entry(Integer(3), Value.Bytes([8])),
            Entry(Integer(4), Value.Array([Value.Text(X)]))];
  }

  /** Providing is 1, consuming 2 and both 3; the name is under key 1, the role under 2, the mutual flag under 3. */
  lemma Declares(r: Role)
    ensures EncodeValue(CapToCbor(Capability(X, r, true, None, None)))
            == [0xA3, 1, 0x61, 0x78, 2, if r.Provide? then 1 else if r.Consume? then 2 else 3, 3, 0xF5]
  {
    hide EncodeValue, X;
    True();
    Letter();
    Small(1);
    Small(2);
    Small(3);
    ThreeEntries(Entry(Integer(1), Value.Text(X)), Entry(Integer(2), Integer(RoleCode(r))),
                 Entry(Integer(3), Value.Bool(true)));
    assert CapEntries(Capability(X, r, true, None, None))
        == [Entry(Integer(1), Value.Text(X)), Entry(Integer(2), Integer(RoleCode(r))),
            Entry(Integer(3), Value.Bool(true))];
  }

  /** A declaration's scope is under key 5 and its applicable scope keys under 6; key 4 is never written. */
  lemma DeclarationKeys(c: Capability)
    ensures CapEntries(c)
            == [Entry(Integer(1), Value.Text(c.name)), Entry(Integer(2), Integer(RoleCode(c.role)))]
               + (if c.mutual then [Entry(Integer(3), Value.Bool(true))] else [])
               + (if c.scope.Some? then [Entry(Integer(5), ScopeToCbor(c.scope.value))] else [])
               + (if c.applicableScopeKeys.Some?
                  then [Entry(Integer(6), Value.Array(KeysToCbor(c.applicableScopeKeys.value)))] else [])
  {
    hide ScopeToCbor, KeysToCbor;
  }

  /** The scopes of a CONFIRM are under key 5. */
  lemma ConfirmKeys(hash: Octets, active: seq<Str>, p: Params)
    ensures MessageEntries(Confirm(hash, active, Some(p)))
            == MessageEntries(Confirm(hash, active, None)) + [Entry(Integer(5), Map(ParamsToCbor(p)))]
  {
    hide ParamsToCbor, TextsToCbor;
  }

  /** The rate limit is under key 1, the lifetime under 2 and an extension under its own key. */
  lemma Scopes()
    ensures EncodeValue(ScopeToCbor(ScopeParams(5, 6, map[4 := Uint(9)]))) == [0xA3, 1, 5, 2, 6, 4, 9]
  {
    hide EncodeValue, ExtensionEntries, Sorting.KeysInOrder;
    var s := ScopeParams(5, 6, map[4 := Uint(9)]);
    OneExtension(4, Uint(9));
    assert ScopeEntries(s)
        == [Entry(Integer(1), Integer(5)), Entry(Integer(2), Integer(6)), Entry(Integer(4), Integer(9))];
    Small(1);
    Small(2);
    Small(4);
    Small(5);
    Small(6);
    Small(9);
    ThreeEntries(Entry(Integer(1), Integer(5)), Entry(Integer(2), Integer(6)), Entry(Integer(4), Integer(9)));
  }

  lemma OneExtension(k: U64, v: ScopeValue)
    ensures var ext: Extensions := map[k := v];
            ExtensionEntries(Sorting.KeysInOrder(ext.Keys), ext) == [Entry(Integer(k), ScopeValueToCbor(v))]
  {
    var ext: Extensions := map[k := v];
    var ks := Sorting.KeysInOrder(ext.Keys);
    assert ext.Keys == {k};
    assert |ks| >= 1 && ks[0] == k by {
      assert k in ks;
    }
    assert |ks| == 1;
  }

  /** An OFFER is 1 with the manifest under key 2, its fields under keys 1 to 6. */
  lemma OffersManifest(m: Manifest)
    ensures MessageEntries(Offer(m)) == [Entry(Integer(1), Integer(1)), Entry(Integer(2), Reparse(ManifestToCbor(m)))]
    ensures ManifestToCbor(m)
            == Map([Entry(Integer(1), Integer(m.protocolVersion)), Entry(Integer(2), Value.Bytes(m.peerId)),
                    Entry(Integer(3), Integer(m.sequenceNum)),
                    Entry(Integer(4), Value.Array(CapsToCbor(SortCapabilities(m.capabilities)))),
                    Entry(Integer(5), Value.Bytes(m.personalHash)), Entry(Integer(6), Value.Text(m.hashAlgorithm))])
  {
  }

  /** A capability message keeps its type and payload, under keys 1 and 8. */
  lemma CapabilityBytes()
    ensures ToPayload(CapabilityMsg(6, [8])) == [0xA2, 1, 6, 8, 0x41, 8]
  {
    hide EncodeValue;
    OneByte(8);
    Small(1);
    Small(6);
    Small(8);
    TwoEntries(Entry(Integer(1), Integer(6)), Entry(Integer(8), Value.Bytes([8])));
  }

  // ── What a decoder accepts ────────────────────────────────────────────────

  /** Some entry under the key has a value of the kind. */
  predicate Has(es: seq<Entry>, key: U64, kind: Kind) {
    exists i :: 0 <= i < |es| && es[i].key == Integer(key) && KindOf(es[i].val) == kind
  }

  lemma {:induction false} LookupHas(es: seq<Entry>, key: U64, kind: Kind)
    ensures Lookup(es, key, kind).Some? <==> Has(es, key, kind)
  {
    if es != [] {
      LookupHas(es[1..], key, kind);
      if i :| 0 <= i < |es| && es[i].key == Integer(key) && KindOf(es[i].val) == kind {
        assert i == 0 || es[1..][i - 1] == es[i];
      }
      if i :| 0 <= i < |es[1..]| && es[1..][i].key == Integer(key) && KindOf(es[1..][i].val) == kind {
        assert es[i + 1] == es[1..][i];
      }
    }
  }

  /** A message without a type is refused, and so are a PING and a PONG without a timestamp. */
  lemma TimedMessages(es: seq<Entry>)
    ensures !Has(es, 1, IntKind) ==> FromEntries(es).Err?
    ensures GetInt(es, 1) == Some(4) || GetInt(es, 1) == Some(5) ==> (FromEntries(es).Ok? ==> Has(es, 7, IntKind))
    ensures GetInt(es, 1) == Some(4) && GetInt(es, 7).Some? ==> FromEntries(es) == Ok(Ping(GetInt(es, 7).value))
    ensures GetInt(es, 1) == Some(5) && GetInt(es, 7).Some? ==> FromEntries(es) == Ok(Pong(GetInt(es, 7).value))
  {
    hide Lookup, Has;
    LookupHas(es, 1, IntKind);
    LookupHas(es, 7, IntKind);
  }

  /** A CLOSE needs its hash only: without a reason it is a normal one, and an unknown reason is an error. */
  lemma ClosesAccepted(es: seq<Entry>)
    requires GetInt(es, 1) == Some(3)
    ensures FromEntries(es).Ok? <==> Has(es, 3, BytesKind)
    ensures FromEntries(es).Ok? ==>
              && FromEntries(es).value.Close?
              && (GetInt(es, 6).None? ==> FromEntries(es).value.reason == Normal)
              && (forall r :: GetInt(es, 6) == Some(ReasonCode(r)) ==> FromEntries(es).value.reason == r)
              && (GetInt(es, 6).Some? && GetInt(es, 6).value !in {0, 1, 2, 3, 4, 255} ==>
                    FromEntries(es).value.reason == CloseReason.Error)
  {
    hide Lookup, Has;
    LookupHas(es, 3, BytesKind);
  }

  predicate AllTexts(vs: seq<Value>) {
    forall i :: 0 <= i < |vs| ==> vs[i].Text?
  }

  lemma {:induction false} TextsAccepted(vs: seq<Value>)
    ensures TextsFromCbor(vs).Ok? <==> AllTexts(vs)
  {
    if vs != [] {
      TextsAccepted(vs[1..]);
      assert forall i :: 0 <= i < |vs| - 1 ==> vs[1..][i] == vs[i + 1];
      assert AllTexts(vs) <==> vs[0].Text? && AllTexts(vs[1..]) by {
        assert forall i :: 0 < i < |vs| ==> vs[i] == vs[1..][i - 1];
      }
    }
  }

  /** Every value under a text key is a map. */
  predicate AllScopes(es: seq<Entry>) {
    forall i :: 0 <= i < |es| && es[i].key.Text? ==> es[i].val.Map?
  }

  lemma {:induction false} ParamsAccepted(es: seq<Entry>)
    ensures ParamsFromCbor(es).Ok? <==> AllScopes(es)
  {
    if es != [] {
      ParamsAccepted(es[..|es| - 1]);
    }
  }

  /** A CONFIRM needs its hash and a list of texts, and a scope for each text key of its map if it has one. */
  lemma ConfirmsAccepted(es: seq<Entry>)
    requires GetInt(es, 1) == Some(2)
    ensures FromEntries(es).Ok?
            <==> && Has(es, 3, BytesKind)
                 && GetArray(es, 4).Some? && AllTexts(GetArray(es, 4).value)
                 && (GetMap(es, 5).Some? ==> AllScopes(GetMap(es, 5).value))
  {
    hide Lookup, Has, AllTexts, AllScopes, TextsFromCbor, ParamsFromCbor;
    LookupHas(es, 3, BytesKind);
    if GetArray(es, 4).Some? {
      TextsAccepted(GetArray(es, 4).value);
    }
    if GetMap(es, 5).Some? {
      ParamsAccepted(GetMap(es, 5).value);
    }
  }

  /** A declaration needs a name and one of the three roles. */
  lemma DeclarationsAccepted(v: Value)
    ensures CapFromCbor(v).Ok?
            <==> && v.Map? && GetText(v.entries, 1).Some?
                 && GetInt(v.entries, 2).Some? && 1 <= GetInt(v.entries, 2).value <= 3
  {
  }

  ghost predicate AllDeclarations(vs: seq<Value>) {
    forall i :: 0 <= i < |vs| ==> CapFromCbor(vs[i]).Ok?
  }

  lemma {:induction false} ListsAccepted(vs: seq<Value>)
    ensures CapsFromCbor(vs).Ok? <==> AllDeclarations(vs)
  {
    hide CapFromCbor;
    if vs != [] {
      ListsAccepted(vs[1..]);
      assert AllDeclarations(vs) <==> CapFromCbor(vs[0]).Ok? && AllDeclarations(vs[1..]) by {
        assert forall i :: 0 < i < |vs| ==> vs[i] == vs[1..][i - 1];
      }
    }
  }

  /** A manifest needs its six fields, a peer id of 32 bytes and only good declarations. */
  lemma ManifestsAccepted(v: Value)
    ensures ManifestFromCbor(v).Ok?
            <==> && v.Map?
                 && GetInt(v.entries, 1).Some? && GetInt(v.entries, 3).Some?
                 && GetBytes(v.entries, 2).Some? && |GetBytes(v.entries, 2).value| == 32
                 && Has(v.entries, 5, BytesKind) && Has(v.entries, 6, TextKind)
                 && GetArray(v.entries, 4).Some? && AllDeclarations(GetArray(v.entries, 4).value)
  {
    hide Lookup, Has, AllDeclarations, CapsFromCbor;
    if v.Map? {
      LookupHas(v.entries, 5, BytesKind);
      LookupHas(v.entries, 6, TextKind);
      if GetArray(v.entries, 4).Some? {
        ListsAccepted(GetArray(v.entries, 4).value);
      }
    }
  }

  /** An OFFER needs a manifest under the first entry of key 2. */
  lemma OffersAccepted(es: seq<Entry>)
    requires GetInt(es, 1) == Some(1)
    ensures FromEntries(es).Ok? <==> FirstAt(es, 2).Some? && ManifestFromCbor(Reparse(FirstAt(es, 2).value)).Ok?
  {
    hide Lookup, ManifestFromCbor, Reparse, FirstAt;
  }

  /** Any other type is passed on: the bytes under key 8, or what is left of the map without its type. */
  lemma OthersPassedOn(es: seq<Entry>)
    requires GetInt(es, 1).Some? && !(1 <= GetInt(es, 1).value <= 5)
    ensures GetBytes(es, 8).Some? ==> FromEntries(es) == Ok(CapabilityMsg(GetInt(es, 1).value, GetBytes(es, 8).value))
    ensures GetBytes(es, 8).None? ==>
              exists rest :: Selecting.Selects(es, rest, NotType())
                             && FromEntries(es) == Ok(CapabilityMsg(GetInt(es, 1).value, EncodeValue(Map(rest))))
  {
    hide Lookup, EncodeValue, Selecting.Selects;
    WithoutTypeSelects(es);
  }

  function NotType(): Entry -> bool {
    (e: Entry) => e.key != Integer(1)
  }

  lemma {:induction false} WithoutTypeSelects(es: seq<Entry>)
    ensures Selecting.Selects(es, WithoutType(es), NotType())
  {
    hide Selecting.Selects;
    Selecting.SelectsNone(NotType());
    if es != [] {
      WithoutTypeSelects(es[1..]);
      HeadSplit(es);
      Selecting.SelectsCons(es[0], es[1..], WithoutType(es[1..]), NotType());
    }
  }

  /** Scope values are read from non-negative integers, texts, booleans, byte strings and arrays. */
  lemma ScopeValuesAccepted(v: Value)
    ensures ScopeValueFromCbor(v).Some?
            <==> (v.Integer? && v.i >= 0) || v.Text? || v.Bool? || v.Bytes? || v.Array?
  {
    hide ScopeValuesFromCbor;
  }

  /** Inside an array, what is not read is left out. */
  lemma {:induction false} ItemsAccepted(vs: seq<Value>, v: Value)
    ensures ScopeValuesFromCbor(vs + [v])
            == ScopeValuesFromCbor(vs)
               + if ScopeValueFromCbor(v).Some? then [ScopeValueFromCbor(v).value] else []
  {
    hide ScopeValueFromCbor;
    if vs == [] {
      assert [] + [v] == [v] && [v][1..] == [];
    } else {
      ItemsAccepted(vs[1..], v);
      assert (vs + [v])[1..] == vs[1..] + [v];
    }
  }

  /** And so among applicable scope keys. */
  lemma {:induction false} KeysAccepted(vs: seq<Value>, v: Value)
    ensures KeysFromCbor(vs + [v]) == KeysFromCbor(vs) + if v.Integer? && v.i >= 0 then [v.i] else []
  {
    if vs == [] {
      assert [] + [v] == [v] && [v][1..] == [];
    } else {
      KeysAccepted(vs[1..], v);
      assert (vs + [v])[1..] == vs[1..] + [v];
    }
  }
}
