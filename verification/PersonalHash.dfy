/** What a manifest's personal hash depends on (`personal_hash` in node/p2pcd-types/src/cbor.rs). */
module PersonalHash {
  import opened Prelude
  import opened BigEndian
  import opened Sorting
  import opened Scope
  import opened Messages
  import opened Cbor
  import opened Codec
  import opened Wire
  import opened ScopeForm

  /** The manifest that is hashed: sequence number zeroed, hash field emptied. */
  function Hashed(m: Manifest): Manifest {
    m.(sequenceNum := 0, personalHash := [])
  }

  /** The bytes fed to SHA-256. */
  function HashInput(m: Manifest): Octets {
    EncodeValue(ManifestToCbor(Hashed(m)))
  }

  /** What is hashed is the manifest's own encoding with a sequence number of zero and no hash. */
  lemma HashInputIs(m: Manifest)
    ensures HashInput(m)
            == EncodeValue(Map([Entry(Integer(1), Integer(m.protocolVersion)), Entry(Integer(2), Value.Bytes(m.peerId)),
                                Entry(Integer(3), Integer(0)),
                                Entry(Integer(4), Value.Array(CapsToCbor(SortCapabilities(m.capabilities)))),
                                Entry(Integer(5), Value.Bytes([])), Entry(Integer(6), Value.Text(m.hashAlgorithm))]))
  {
    hide EncodeValue;
  }

  /** Both absent, or of one form. */
  predicate ScopesAlike(x: Option<ScopeParams>, y: Option<ScopeParams>) {
    match (x, y)
    case (Some(a), Some(b)) => SameForm(a, b)
    case (None, None) => true
    case _ => false
  }

  /** Declarations that differ at most in the form of their scope. */
  predicate CapsAlike(c: Capability, d: Capability) {
    c.(scope := None) == d.(scope := None) && ScopesAlike(c.scope, d.scope)
  }

  lemma CapScopeLookup(c: Capability)
    ensures GetMap(CapEntries(c), SCOPE) == match c.scope case Some(s) => Some(ScopeEntries(s)) case None => None
  {
    hide ScopeEntries, KeysToCbor;
    if c.scope.Some? {
      CapKeysAscend(c);
      LookupAt(CapEntries(c), 2 + |MutualEntry(c)|);
    } else {
      LookupMissing(CapEntries(c), SCOPE, MapKind);
    }
  }

  lemma SameCapEncoding(c: Capability, d: Capability)
    ensures CapToCbor(c) == CapToCbor(d) <==> CapsAlike(c, d)
  {
    hide ScopeEntries, SameForm;
    if c.scope.Some? && d.scope.Some? {
      WrittenAlike(c.scope.value, d.scope.value);
    }
    if CapToCbor(c) == CapToCbor(d) {
      hide CapEntries, CapFromCbor, ReceivedScope;
      CapDecodes(c);
      CapDecodes(d);
      CapScopeLookup(c);
      CapScopeLookup(d);
    }
    if CapsAlike(c, d) {
      assert ScopeEntry(c) == ScopeEntry(d);
    }
  }

  lemma {:induction false} SameCapsEncoding(cs: seq<Capability>, ds: seq<Capability>)
    ensures CapsToCbor(cs) == CapsToCbor(ds) <==> |cs| == |ds| && forall i :: 0 <= i < |cs| ==> CapsAlike(cs[i], ds[i])
  {
    hide CapToCbor, CapsAlike;
    if |cs| == |ds| {
      forall i | 0 <= i < |cs|
        ensures CapsToCbor(cs)[i] == CapsToCbor(ds)[i] <==> CapsAlike(cs[i], ds[i])
      {
        SameCapEncoding(cs[i], ds[i]);
      }
    }
  }

  lemma SameManifestEncoding(a: Manifest, b: Manifest)
    ensures ManifestToCbor(a) == ManifestToCbor(b)
            <==> && a.(capabilities := b.capabilities) == b
                 && CapsToCbor(SortCapabilities(a.capabilities)) == CapsToCbor(SortCapabilities(b.capabilities))
  {
    hide CapsToCbor, SortCapabilities;
    if ManifestToCbor(a) == ManifestToCbor(b) {
      var x, y := ManifestEntries(a), ManifestEntries(b);
      assert x[0] == y[0] && x[1] == y[1] && x[2] == y[2] && x[3] == y[3] && x[4] == y[4] && x[5] == y[5];
    }
  }

  /**
   * Same hash input exactly when version, peer and algorithm are the same and the sorted
   * declarations are written alike.
   */
  lemma SameHashInput(a: Manifest, b: Manifest)
    requires |HashInput(a)| < MAX_LEN
    ensures HashInput(a) == HashInput(b)
            <==> && a.protocolVersion == b.protocolVersion
                 && a.peerId == b.peerId
                 && a.hashAlgorithm == b.hashAlgorithm
                 && |a.capabilities| == |b.capabilities|
                 && forall i :: 0 <= i < |a.capabilities| ==>
                                  CapsAlike(SortCapabilities(a.capabilities)[i], SortCapabilities(b.capabilities)[i])
  {
    hide EncodeValue, ManifestToCbor, SortCapabilities, CapsAlike;
    EncodeInjective(ManifestToCbor(Hashed(a)), ManifestToCbor(Hashed(b)));
    SameManifestEncoding(Hashed(a), Hashed(b));
    SameCapsEncoding(SortCapabilities(a.capabilities), SortCapabilities(b.capabilities));
  }

  /** With extension keys of 3 and above only equal declarations are written alike. */
  lemma AlikeMeansEqual(c: Capability, d: Capability)
    requires c.scope.Some? ==> WireSafe(c.scope.value)
    requires d.scope.Some? ==> WireSafe(d.scope.value)
    ensures CapsAlike(c, d) <==> c == d
  {
    hide SameForm, WireSafe;
    if c.scope.Some? && d.scope.Some? {
      WireSafeForm(c.scope.value, d.scope.value);
    }
  }

  /** A limit and an extension under the limit's own key are written alike, so the hash does not tell them apart. */
  lemma LimitKeyCollision(m: Manifest, c: Capability, n: U64)
    requires n > 0
    ensures var x, y := ScopeParams(n, 0, map[]), ScopeParams(0, 0, map[RATE_LIMIT := Uint(n)]);
            && x != y
            && HashInput(m.(capabilities := [c.(scope := Some(x))]))
               == HashInput(m.(capabilities := [c.(scope := Some(y))]))
  {
    var x, y := ScopeParams(n, 0, map[]), ScopeParams(0, 0, map[RATE_LIMIT := Uint(n)]);
    assert SameForm(x, y);
    hide SameForm, EncodeValue;
    var a, b := m.(capabilities := [c.(scope := Some(x))]), m.(capabilities := [c.(scope := Some(y))]);
    SameCapsEncoding(SortCapabilities(a.capabilities), SortCapabilities(b.capabilities));
    SameManifestEncoding(Hashed(a), Hashed(b));
  }

  // ── Distinct names ────────────────────────────────────────────────────────

  function NamesOf(cs: seq<Capability>): (r: seq<Str>)
    ensures |r| == |cs| && forall i :: 0 <= i < |cs| ==> r[i] == cs[i].name
  {
    seq(|cs|, i requires 0 <= i < |cs| => cs[i].name)
  }

  lemma DistinctNamesOf(cs: seq<Capability>)
    ensures DistinctNames(cs) <==> Distinct(NamesOf(cs))
  {
    var ns := NamesOf(cs);
    assert Distinct(ns) ==> DistinctNames(cs) by {
      if Distinct(ns) {
        forall i, j | 0 <= i < j < |cs|
          ensures cs[i].name != cs[j].name
        {
          assert ns[i] != ns[j];
        }
      }
    }
  }

  /** Every declaration of `cs` has one of its form in `ds`. */
  predicate Covered(cs: seq<Capability>, ds: seq<Capability>) {
    forall c :: c in cs ==> exists d :: d in ds && CapsAlike(c, d)
  }

  /** As many declarations of the same forms: then the names are distinct on both sides and the same. */
  lemma CoveredNames(cs: seq<Capability>, ds: seq<Capability>)
    requires DistinctNames(cs) && |cs| == |ds| && Covered(cs, ds)
    ensures DistinctNames(ds) && forall n :: n in NamesOf(cs) <==> n in NamesOf(ds)
  {
    hide CapsAlike, DistinctNames;
    DistinctNamesOf(cs);
    DistinctNamesOf(ds);
    var a, b := set n | n in NamesOf(cs), set n | n in NamesOf(ds);
    forall n | n in NamesOf(cs)
      ensures n in NamesOf(ds)
    {
      CoveredName(cs, ds, n);
    }
    DistinctSize(NamesOf(cs));
    DistinctSize(NamesOf(ds));
    SubsetSize(a, b);
    forall n: Str
      ensures n in NamesOf(cs) <==> n in NamesOf(ds)
    {
      assert n in a <==> n in b;
    }
  }

  lemma CoveredName(cs: seq<Capability>, ds: seq<Capability>, n: Str)
    requires Covered(cs, ds) && n in NamesOf(cs)
    ensures n in NamesOf(ds)
  {
    var i :| 0 <= i < |cs| && NamesOf(cs)[i] == n;
    assert cs[i] in cs;
    var d :| d in ds && CapsAlike(cs[i], d);
    var j :| 0 <= j < |ds| && ds[j] == d;
    assert NamesOf(ds)[j] == n;
  }

  /** Lists of distinct names in the same order of names pair up. */
  lemma SortedNamesPair(cs: seq<Capability>, ds: seq<Capability>)
    requires DistinctNames(cs) && DistinctNames(ds) && forall n :: n in NamesOf(cs) <==> n in NamesOf(ds)
    ensures |cs| == |ds|
    ensures NamesOf(SortCapabilities(cs)) == NamesOf(SortCapabilities(ds))
  {
    SortedNamesOf(cs);
    SortedNamesOf(ds);
    StrLeIsTotalOrder();
    hide SortCapabilities, NamesOf, DistinctNames, StrLe;
    StrictlySortedUnique(NamesOf(SortCapabilities(cs)), NamesOf(SortCapabilities(ds)));
  }

  lemma SortedNamesOf(cs: seq<Capability>)
    requires DistinctNames(cs)
    ensures var ns := NamesOf(SortCapabilities(cs));
            SortedBy(ns, StrLe) && Distinct(ns) && |ns| == |cs| && forall n :: n in ns <==> n in NamesOf(cs)
  {
    var sorted := SortCapabilities(cs);
    NameLeIsPreorder();
    SortBySorted(cs, NameLe);
    SortByMembers(cs, NameLe);
    hide StrLe;
    assert forall i, j :: 0 <= i < j < |sorted| ==> NameLe(sorted[i], sorted[j]);
    SortedDistinct(cs);
    DistinctNamesOf(sorted);
    forall n: Str
      ensures n in NamesOf(sorted) <==> n in NamesOf(cs)
    {
      NameMember(sorted, n);
      NameMember(cs, n);
    }
  }

  lemma NameMember(cs: seq<Capability>, n: Str)
    ensures n in NamesOf(cs) <==> exists c :: c in cs && c.name == n
  {
    if c :| c in cs && c.name == n {
      var i :| 0 <= i < |cs| && cs[i] == c;
      assert NamesOf(cs)[i] == n;
    }
  }

  lemma SortedDistinct(cs: seq<Capability>)
    requires DistinctNames(cs)
    ensures DistinctNames(SortCapabilities(cs))
  {
    var sorted := SortCapabilities(cs);
    forall i, j | 0 <= i < j < |sorted|
      ensures sorted[i].name != sorted[j].name
    {
      if sorted[i].name == sorted[j].name {
        SortByMembers(cs, NameLe);
        assert sorted[i] in cs && sorted[j] in cs;
        assert sorted[i] == sorted[j];
        TwoPlaces(sorted, i, j);
        OnePlace(cs, sorted[i]);
      }
    }
  }

  lemma TwoPlaces(cs: seq<Capability>, i: nat, j: nat)
    requires i < j < |cs| && cs[i] == cs[j]
    ensures multiset(cs)[cs[i]] >= 2
  {
    assert cs == cs[..j] + [cs[j]] + cs[j + 1..];
    assert cs[..j][i] == cs[i] && multiset(cs[..j])[cs[i]] >= 1;
  }

  lemma {:induction false} OnePlace(cs: seq<Capability>, c: Capability)
    requires DistinctNames(cs)
    ensures multiset(cs)[c] <= 1
  {
    if cs != [] {
      OnePlace(cs[1..], c);
      HeadSplit(cs);
      assert multiset(cs) == multiset([cs[0]]) + multiset(cs[1..]);
      assert cs[0] !in cs[1..];
    }
  }

  lemma {:induction false} StrictlySortedUnique(a: seq<Str>, b: seq<Str>)
    requires TotalOrder(StrLe) && SortedBy(a, StrLe) && SortedBy(b, StrLe) && Distinct(a) && Distinct(b)
    requires forall n :: n in a <==> n in b
    ensures a == b
  {
    DistinctMultiset(a, b);
    SortedUnique(a, b, StrLe);
  }

  /** Paired by name, covering is being alike place by place. */
  lemma CoveredPairs(cs: seq<Capability>, ds: seq<Capability>)
    requires |cs| == |ds| && NamesOf(cs) == NamesOf(ds) && DistinctNames(ds)
    ensures Covered(cs, ds) <==> forall i :: 0 <= i < |cs| ==> CapsAlike(cs[i], ds[i])
  {
    hide ScopesAlike;
    if Covered(cs, ds) {
      forall i | 0 <= i < |cs|
        ensures CapsAlike(cs[i], ds[i])
      {
        assert cs[i] in cs;
        var d :| d in ds && CapsAlike(cs[i], d);
        var j :| 0 <= j < |ds| && ds[j] == d;
        assert NamesOf(cs)[i] == NamesOf(ds)[i];
        assert i == j;
      }
    }
    if forall i :: 0 <= i < |cs| ==> CapsAlike(cs[i], ds[i]) {
      forall c | c in cs
        ensures exists d :: d in ds && CapsAlike(c, d)
      {
        var i :| 0 <= i < |cs| && cs[i] == c;
        assert ds[i] in ds;
      }
    }
  }

  lemma CoveredSorted(cs: seq<Capability>, ds: seq<Capability>)
    ensures Covered(cs, ds) <==> Covered(SortCapabilities(cs), SortCapabilities(ds))
  {
    hide CapsAlike;
    SortByMembers(cs, NameLe);
    SortByMembers(ds, NameLe);
  }

  lemma AlikeNames(cs: seq<Capability>, ds: seq<Capability>)
    requires |cs| == |ds| && forall i :: 0 <= i < |cs| ==> CapsAlike(cs[i], ds[i])
    ensures NamesOf(cs) == NamesOf(ds)
  {
    hide ScopesAlike;
    assert forall i :: 0 <= i < |cs| ==> cs[i].name == ds[i].name;
  }

  /** Sorted by name, two lists are alike place by place exactly when they are as long and one covers the other. */
  lemma AlikeIsCovered(cs: seq<Capability>, ds: seq<Capability>)
    requires DistinctNames(cs)
    ensures (|cs| == |ds| && forall i :: 0 <= i < |cs| ==> CapsAlike(SortCapabilities(cs)[i], SortCapabilities(ds)[i]))
            <==> |cs| == |ds| && Covered(cs, ds)
  {
    hide CapsAlike, Covered, NamesOf, DistinctNames, SortCapabilities;
    var s, t := SortCapabilities(cs), SortCapabilities(ds);
    CoveredSorted(cs, ds);
    SortedDistinct(cs);
    if |cs| == |ds| && Covered(cs, ds) {
      CoveredNames(s, t);
      CoveredNames(cs, ds);
      SortedNamesPair(cs, ds);
      CoveredPairs(s, t);
    }
    if |cs| == |ds| && forall i :: 0 <= i < |cs| ==> CapsAlike(s[i], t[i]) {
      AlikeNames(s, t);
      DistinctNamesOf(s);
      DistinctNamesOf(t);
      CoveredPairs(s, t);
    }
  }

  /**
   * With distinct names the hash ignores exactly the sequence number, the hash field, the
   * declaration order and which form a scope is declared in.
   */
  lemma HashIgnoresForm(a: Manifest, b: Manifest)
    requires DistinctNames(a.capabilities) && |HashInput(a)| < MAX_LEN
    ensures HashInput(a) == HashInput(b)
            <==> a.(sequenceNum := b.sequenceNum, personalHash := b.personalHash, capabilities := b.capabilities) == b
                 && |a.capabilities| == |b.capabilities| && Covered(a.capabilities, b.capabilities)
  {
    hide HashInput, SortCapabilities, DistinctNames, CapsAlike, Covered;
    SameHashInput(a, b);
    AlikeIsCovered(a.capabilities, b.capabilities);
  }

  /** With distinct names the hash ignores exactly the sequence number, the hash field and the declaration order. */
  lemma HashIgnores(a: Manifest, b: Manifest)
    requires ManifestWireSafe(a) && ManifestWireSafe(b) && DistinctNames(a.capabilities)
    requires |HashInput(a)| < MAX_LEN
    ensures HashInput(a) == HashInput(b)
            <==> multiset(a.capabilities) == multiset(b.capabilities)
                 && a.(sequenceNum := b.sequenceNum, personalHash := b.personalHash, capabilities := b.capabilities)
                    == b
  {
    hide HashInput, SortCapabilities, ManifestWireSafe, DistinctNames, CapsAlike;
    SameHashInput(a, b);
    SortedAlike(a, b);
    SortedCapabilitiesUnique(a.capabilities, b.capabilities);
  }

  lemma SortedAlike(a: Manifest, b: Manifest)
    requires ManifestWireSafe(a) && ManifestWireSafe(b)
    ensures SortCapabilities(a.capabilities) == SortCapabilities(b.capabilities)
            <==> |a.capabilities| == |b.capabilities|
                 && forall i :: 0 <= i < |a.capabilities| ==>
                                  CapsAlike(SortCapabilities(a.capabilities)[i], SortCapabilities(b.capabilities)[i])
  {
    hide CapsAlike, WireSafe;
    var cs, ds := SortCapabilities(a.capabilities), SortCapabilities(b.capabilities);
    SortByMembers(a.capabilities, NameLe);
    SortByMembers(b.capabilities, NameLe);
    if |cs| == |ds| {
      forall i | 0 <= i < |cs|
        ensures CapsAlike(cs[i], ds[i]) <==> cs[i] == ds[i]
      {
        assert cs[i] in a.capabilities && ds[i] in b.capabilities;
        hide SortCapabilities;
        AlikeMeansEqual(cs[i], ds[i]);
      }
    }
  }

  // ── Deterministic encoding ────────────────────────────────────────────────

  /** Every map in `v` has integer keys in strictly ascending order. */
  ghost predicate Ordered(v: Value)
    decreases v
  {
    match v
    case Map(es) => AscendingKeys(es) && forall i :: 0 <= i < |es| ==> OrderedEntry(es[i])
    case Array(items) => forall i :: 0 <= i < |items| ==> Ordered(items[i])
    case _ => true
  }

  ghost predicate OrderedEntry(e: Entry)
    decreases e
  {
    Ordered(e.val)
  }

  lemma {:induction false} ScopeValueOrdered(v: ScopeValue)
    ensures Ordered(ScopeValueToCbor(v))
    decreases v, 0
  {
    if v.Array? {
      ScopeValuesOrdered(v.items);
    }
  }

  lemma {:induction false} ScopeValuesOrdered(vs: seq<ScopeValue>)
    ensures forall i :: 0 <= i < |ScopeValuesToCbor(vs)| ==> Ordered(ScopeValuesToCbor(vs)[i])
    decreases vs, 0
  {
    if vs != [] {
      ScopeValueOrdered(vs[0]);
      ScopeValuesOrdered(vs[1..]);
    }
  }

  lemma ScopeOrdered(s: ScopeParams)
    ensures Ordered(ScopeToCbor(s)) <==> KeysFollow(s)
  {
    hide KeysInOrder, ScopeValueToCbor, KeysFollow, ScopeEntries, Limits, Extended, AscendingKeys;
    ScopeKeysAscend(s);
    EntriesAre(s);
    LimitsAscend(s);
    ExtendedAt(s.extensions);
    var limits, ext := Limits(s), Extended(s.extensions);
    forall i | 0 <= i < |limits + ext|
      ensures OrderedEntry((limits + ext)[i])
    {
      if i < |limits| {
        assert limits[i].val.Integer?;
      } else {
        ScopeValueOrdered(s.extensions[KeysInOrder(s.extensions.Keys)[i - |limits|]]);
      }
    }
  }

  lemma CapOrdered(c: Capability)
    ensures Ordered(CapToCbor(c)) <==> (c.scope.Some? ==> KeysFollow(c.scope.value))
  {
    hide ScopeToCbor, RoleCode, KeysFollow;
    CapKeysAscend(c);
    if c.scope.Some? {
      ScopeOrdered(c.scope.value);
    }
    if c.applicableScopeKeys.Some? {
      KeysOrdered(c.applicableScopeKeys.value);
      assert Ordered(Value.Array(KeysToCbor(c.applicableScopeKeys.value)));
    }
    var es := CapEntries(c);
    forall i | 0 <= i < |es|
      ensures OrderedEntry(es[i]) <==> (es[i].key == Integer(SCOPE) ==> c.scope.Some? ==> KeysFollow(c.scope.value))
    {
      assert OrderedEntry(es[i]) <==> Ordered(es[i].val);
    }
    if c.scope.Some? {
      assert es[2 + |MutualEntry(c)|].key == Integer(SCOPE);
    }
  }

  lemma {:induction false} KeysOrdered(ks: seq<U64>)
    ensures forall i :: 0 <= i < |KeysToCbor(ks)| ==> Ordered(KeysToCbor(ks)[i])
  {
    if ks != [] {
      KeysOrdered(ks[1..]);
    }
  }

  /**
   * Every map in a hash input has its integer keys in strictly ascending order exactly when
   * no declared scope puts an extension under or before a limit it carries.
   */
  lemma HashInputOrdered(m: Manifest)
    ensures Ordered(ManifestToCbor(Hashed(m)))
            <==> forall c :: c in m.capabilities && c.scope.Some? ==> KeysFollow(c.scope.value)
  {
    hide CapsToCbor, CapToCbor, KeysFollow, SortCapabilities;
    var caps := SortCapabilities(m.capabilities);
    ManifestKeysAscend(Hashed(m));
    SortedMembers(m.capabilities);
    CapsOrdered(caps);
    var es := ManifestEntries(Hashed(m));
    assert es[3].val == Value.Array(CapsToCbor(caps));
    assert OrderedEntry(es[3]) <==> Ordered(es[3].val);
    forall i | 0 <= i < |es| && i != 3
      ensures OrderedEntry(es[i])
    {
    }
  }

  lemma SortedMembers(cs: seq<Capability>)
    ensures forall c :: c in SortCapabilities(cs) <==> c in cs
  {
    SortByMembers(cs, NameLe);
  }

  lemma CapsOrdered(cs: seq<Capability>)
    ensures Ordered(Value.Array(CapsToCbor(cs))) <==> forall c :: c in cs && c.scope.Some? ==> KeysFollow(c.scope.value)
  {
    hide CapToCbor, KeysFollow;
    forall i | 0 <= i < |cs|
      ensures Ordered(CapsToCbor(cs)[i]) <==> (cs[i].scope.Some? ==> KeysFollow(cs[i].scope.value))
    {
      CapOrdered(cs[i]);
    }
  }

  lemma {:induction false} StrLeExtends(p: Octets, q: Octets, x: Octets, y: Octets)
    requires |p| == |q| && StrLe(p, q) && (p == q ==> StrLe(x, y))
    ensures StrLe(p + x, q + y)
  {
    if p == [] {
      assert p + x == x && q + y == y;
    } else {
      assert (p + x)[1..] == p[1..] + x && (q + y)[1..] == q[1..] + y;
      if p[0] == q[0] {
        HeadSplit(p);
        HeadSplit(q);
        StrLeExtends(p[1..], q[1..], x, y);
      }
    }
  }

  lemma LastByteOrder(p: Octets, q: Octets, x: byte, y: byte)
    requires |p| == |q| && StrLe(p, q) && (p == q ==> x <= y)
    ensures StrLe(p + [x], q + [y])
    ensures p != q || x != y ==> p + [x] != q + [y]
  {
    StrLeExtends(p, q, [x], [y]);
    assert (p + [x])[..|p|] == p && (q + [y])[..|q|] == q;
    assert (p + [x])[|p|] == x && (q + [y])[|q|] == y;
  }

  lemma {:induction false} ToBeOrder(a: nat, b: nat, width: nat)
    requires a <= b < Range(width)
    ensures StrLe(ToBe(a, width), ToBe(b, width))
    ensures a < b ==> ToBe(a, width) != ToBe(b, width)
  {
    if width > 0 {
      var p, q := ToBe(a / 256, width - 1), ToBe(b / 256, width - 1);
      assert ToBe(a, width) == p + [a % 256] && ToBe(b, width) == q + [b % 256];
      hide ToBe, StrLe;
      ToBeOrder(a / 256, b / 256, width - 1);
      LastByteOrder(p, q, a % 256, b % 256);
    }
  }

  /** Ascending integer keys are ascending encoded keys, byte by byte (section 4.2.1 of RFC 8949). */
  lemma KeyOrderIsByteOrder(a: U64, b: U64)
    requires a < b
    ensures StrLe(EncodeValue(Integer(a)), EncodeValue(Integer(b)))
  {
    Ranges();
    var x, y := Head(0, a), Head(0, b);
    if x[0] == y[0] && a >= 24 {
      var width := if a < 0x100 then 1 else if a < 0x1_0000 then 2 else if a < 0x1_0000_0000 then 4 else 8;
      ToBeOrder(a, b, width);
      assert x[1..] == ToBe(a, width) && y[1..] == ToBe(b, width);
    }
  }
}
