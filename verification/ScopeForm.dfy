/** Which scopes are written alike (`scope_to_cbor_value` in node/p2pcd-types/src/cbor.rs). */
module ScopeForm {
  import opened Prelude
  import opened Sorting
  import opened Scope
  import opened Cbor
  import opened Codec
  import opened Wire

  function Limits(s: ScopeParams): seq<Entry> {
    LimitEntry(RATE_LIMIT, s.rateLimit) + LimitEntry(TTL, s.ttl)
  }

  function Extended(ext: Extensions): seq<Entry> {
    ExtensionEntries(KeysInOrder(ext.Keys), ext)
  }

  lemma EntriesAre(s: ScopeParams)
    ensures ScopeEntries(s) == Limits(s) + Extended(s.extensions)
  {
  }

  lemma LimitsAscend(s: ScopeParams)
    ensures AscendingKeys(Limits(s))
    ensures forall i :: 0 <= i < |Limits(s)| ==> Limits(s)[i].val.Integer?
  {
  }

  lemma ExtendedAt(ext: Extensions)
    ensures AscendingKeys(Extended(ext)) && |Extended(ext)| == |KeysInOrder(ext.Keys)|
    ensures forall i :: 0 <= i < |Extended(ext)| ==>
                          && KeysInOrder(ext.Keys)[i] in ext
                          && Extended(ext)[i]
                             == Entry(Integer(KeysInOrder(ext.Keys)[i]),
                                      ScopeValueToCbor(ext[KeysInOrder(ext.Keys)[i]]))
    ensures forall k :: k in ext ==> exists i :: 0 <= i < |Extended(ext)| && KeysInOrder(ext.Keys)[i] == k
  {
    hide KeysInOrder, ScopeValueToCbor;
    var ks := KeysInOrder(ext.Keys);
    forall i | 0 <= i < |ks|
      ensures ks[i] in ext
    {
      assert ks[i] in ext.Keys;
    }
    forall k | k in ext
      ensures exists i :: 0 <= i < |ks| && ks[i] == k
    {
      assert k in ks;
    }
  }

  // ── Order of the keys ─────────────────────────────────────────────────────

  /** No extension comes under or before the key of a limit that is written. */
  predicate KeysFollow(s: ScopeParams) {
    forall k :: k in s.extensions ==> (s.rateLimit > 0 ==> RATE_LIMIT < k) && (s.ttl > 0 ==> TTL < k)
  }

  /** Two ascending parts make an ascending whole exactly when the first stays below the second. */
  lemma AscendingParts(a: seq<Entry>, b: seq<Entry>)
    requires AscendingKeys(a) && AscendingKeys(b)
    ensures AscendingKeys(a + b) <==> forall i, j :: 0 <= i < |a| && 0 <= j < |b| ==> a[i].key.i < b[j].key.i
  {
    if AscendingKeys(a + b) {
      forall i, j | 0 <= i < |a| && 0 <= j < |b|
        ensures a[i].key.i < b[j].key.i
      {
        assert (a + b)[i] == a[i] && (a + b)[|a| + j] == b[j];
      }
    }
  }

  lemma LimitKeysBelow(s: ScopeParams, k: U64)
    ensures (forall i :: 0 <= i < |Limits(s)| ==> Limits(s)[i].key.Integer? && Limits(s)[i].key.i < k)
            <==> (s.rateLimit > 0 ==> RATE_LIMIT < k) && (s.ttl > 0 ==> TTL < k)
  {
    if s.rateLimit > 0 {
      assert Limits(s)[0].key == Integer(RATE_LIMIT);
    }
    if s.ttl > 0 {
      assert Limits(s)[|Limits(s)| - 1].key == Integer(TTL);
    }
  }

  lemma ScopeKeysAscend(s: ScopeParams)
    ensures AscendingKeys(ScopeEntries(s)) <==> KeysFollow(s)
  {
    hide KeysInOrder, Extended, Limits, ScopeEntries, AscendingKeys;
    var limits, ext := Limits(s), Extended(s.extensions);
    var ks := KeysInOrder(s.extensions.Keys);
    EntriesAre(s);
    LimitsAscend(s);
    ExtendedAt(s.extensions);
    AscendingParts(limits, ext);
    forall j | 0 <= j < |ext|
      ensures (forall i :: 0 <= i < |limits| ==> limits[i].key.Integer? && limits[i].key.i < ext[j].key.i)
              <==> (s.rateLimit > 0 ==> RATE_LIMIT < ks[j]) && (s.ttl > 0 ==> TTL < ks[j])
    {
      LimitKeysBelow(s, ks[j]);
    }
    IntegerKeys(limits);
  }

  lemma IntegerKeys(es: seq<Entry>)
    requires AscendingKeys(es)
    ensures forall i :: 0 <= i < |es| ==> es[i].key.Integer?
  {
  }

  // ── Scopes written alike ──────────────────────────────────────────────────

  /** The limits as extensions under their own keys. */
  function Folded(s: ScopeParams): Extensions {
    var rated := if s.rateLimit > 0 then s.extensions[RATE_LIMIT := Uint(s.rateLimit)] else s.extensions;
    if s.ttl > 0 then rated[TTL := Uint(s.ttl)] else rated
  }

  /**
   * Equal scopes, or scopes whose extensions all come after their limits and that only
   * differ in what they call a limit and what an extension.
   */
  predicate SameForm(x: ScopeParams, y: ScopeParams) {
    x == y || (KeysFollow(x) && KeysFollow(y) && Folded(x) == Folded(y))
  }

  lemma HeadIsLeast(es: seq<Entry>, e: Entry)
    requires AscendingKeys(es) && e in es
    ensures e.key.Integer? && es[0].key.Integer? && es[0].key.i <= e.key.i
    ensures es[0].key.i == e.key.i ==> es[0] == e
  {
    var j :| 0 <= j < |es| && es[j] == e;
  }

  lemma TailMembers(es: seq<Entry>)
    requires AscendingKeys(es) && es != []
    ensures AscendingKeys(es[1..])
    ensures forall e :: e in es[1..] <==> e in es && e != es[0]
  {
    var rest := es[1..];
    assert forall k :: 0 <= k < |rest| ==> rest[k] == es[k + 1];
    assert es == [es[0]] + rest;
  }

  /** Ascending entry lists with the same entries are the same list. */
  lemma {:induction false} AscendingUnique(a: seq<Entry>, b: seq<Entry>)
    requires AscendingKeys(a) && AscendingKeys(b)
    requires forall e :: e in a <==> e in b
    ensures a == b
    decreases |a|
  {
    assert b != [] ==> b[0] in b;
    if a != [] {
      assert a[0] in a && b[0] in b;
      TailMembers(a);
      TailMembers(b);
      HeadIsLeast(a, b[0]);
      HeadIsLeast(b, a[0]);
      HeadSplit(a);
      HeadSplit(b);
      hide AscendingKeys;
      AscendingUnique(a[1..], b[1..]);
    }
  }

  lemma ExtendedMember(ext: Extensions, e: Entry)
    ensures e in Extended(ext) <==> exists k :: k in ext && e == Entry(Integer(k), ScopeValueToCbor(ext[k]))
  {
    hide KeysInOrder, Extended, ScopeValueToCbor, AscendingKeys;
    ExtendedAt(ext);
    if k :| k in ext && e == Entry(Integer(k), ScopeValueToCbor(ext[k])) {
      var i :| 0 <= i < |Extended(ext)| && KeysInOrder(ext.Keys)[i] == k;
      assert Extended(ext)[i] == e;
    }
    if e in Extended(ext) {
      var i :| 0 <= i < |Extended(ext)| && Extended(ext)[i] == e;
      assert KeysInOrder(ext.Keys)[i] in ext;
    }
  }

  lemma LimitsMember(s: ScopeParams, e: Entry)
    ensures e in Limits(s) <==>
              || (s.rateLimit > 0 && e == Entry(Integer(RATE_LIMIT), Integer(s.rateLimit)))
              || (s.ttl > 0 && e == Entry(Integer(TTL), Integer(s.ttl)))
  {
    if s.rateLimit > 0 {
      assert Limits(s)[0] == Entry(Integer(RATE_LIMIT), Integer(s.rateLimit));
    }
    if s.ttl > 0 {
      assert Limits(s)[|Limits(s)| - 1] == Entry(Integer(TTL), Integer(s.ttl));
    }
  }

  /** A scope whose keys follow is written as its folded form. */
  lemma FoldedForm(s: ScopeParams)
    requires KeysFollow(s)
    ensures ScopeEntries(s) == Extended(Folded(s))
  {
    ScopeKeysAscend(s);
    EntriesAre(s);
    ExtendedAt(Folded(s));
    forall e: Entry
      ensures e in ScopeEntries(s) <==> e in Extended(Folded(s))
    {
      FoldedMember(s, e);
    }
    hide KeysFollow, ScopeEntries, Extended, Folded;
    AscendingUnique(ScopeEntries(s), Extended(Folded(s)));
  }

  lemma FoldedMember(s: ScopeParams, e: Entry)
    requires KeysFollow(s)
    ensures e in Limits(s) + Extended(s.extensions) <==> e in Extended(Folded(s))
  {
    hide Limits, Extended, ScopeValueToCbor;
    LimitsMember(s, e);
    ExtendedMember(s.extensions, e);
    ExtendedMember(Folded(s), e);
    FoldedLookup(s);
    LimitsAsValues(s);
  }

  lemma LimitsAsValues(s: ScopeParams)
    ensures ScopeValueToCbor(Uint(s.rateLimit)) == Integer(s.rateLimit)
    ensures ScopeValueToCbor(Uint(s.ttl)) == Integer(s.ttl)
  {
  }

  lemma FoldedLookup(s: ScopeParams)
    requires KeysFollow(s)
    ensures forall k :: k in Folded(s) <==>
              k in s.extensions || (k == RATE_LIMIT && s.rateLimit > 0) || (k == TTL && s.ttl > 0)
    ensures forall k :: k in s.extensions ==> Folded(s)[k] == s.extensions[k]
    ensures s.rateLimit > 0 ==> Folded(s)[RATE_LIMIT] == Uint(s.rateLimit) && RATE_LIMIT !in s.extensions
    ensures s.ttl > 0 ==> Folded(s)[TTL] == Uint(s.ttl) && TTL !in s.extensions
  {
  }

  /** Extensions are told apart by their entries. */
  lemma ExtendedInjective(a: Extensions, b: Extensions)
    requires Extended(a) == Extended(b)
    ensures a == b
  {
    hide Extended, ScopeValueToCbor;
    forall k | k in a
      ensures k in b && b[k] == a[k]
    {
      SameExtension(a, b, k);
    }
    forall k | k in b
      ensures k in a
    {
      SameExtension(b, a, k);
    }
  }

  lemma SameExtension(a: Extensions, b: Extensions, k: U64)
    requires Extended(a) == Extended(b) && k in a
    ensures k in b && b[k] == a[k]
  {
    hide Extended, ScopeValueToCbor;
    var e := Entry(Integer(k), ScopeValueToCbor(a[k]));
    ExtendedMember(a, e);
    ExtendedMember(b, e);
    ScopeValueRoundTrip(a[k]);
    ScopeValueRoundTrip(b[k]);
  }

  /** Where the keys of a written scope do not ascend, the break tells limits from extensions. */
  lemma ShorterLimits(x: ScopeParams, y: ScopeParams)
    requires ScopeEntries(x) == ScopeEntries(y) && |Limits(x)| < |Limits(y)|
    ensures KeysFollow(x)
  {
    hide Limits, Extended, ScopeEntries;
    EntriesAre(x);
    EntriesAre(y);
    LimitsAscend(y);
    ExtendedAt(x.extensions);
    Overlap(Limits(x), Extended(x.extensions), Limits(y), Extended(y.extensions));
    ScopeKeysAscend(x);
  }

  /** Two ascending stretches that overlap make one. */
  lemma Overlap(a: seq<Entry>, b: seq<Entry>, c: seq<Entry>, d: seq<Entry>)
    requires a + b == c + d && |a| < |c| && AscendingKeys(c) && AscendingKeys(b)
    ensures AscendingKeys(a + b)
  {
    var whole := a + b;
    assert forall i :: 0 <= i < |c| ==> whole[i] == c[i] by {
      assert whole == c + d;
    }
    assert forall i :: |a| <= i < |whole| ==> whole[i] == b[i - |a|];
    forall i, j | 0 <= i < j < |whole|
      ensures whole[i].key.Integer? && whole[j].key.Integer? && whole[i].key.i < whole[j].key.i
    {
      if i < |a| && |c| <= j {
        assert whole[i].key.i < whole[|a|].key.i;
      }
    }
    assert whole != [] ==> whole[0].key.Integer?;
  }

  lemma SameLimits(x: ScopeParams, y: ScopeParams)
    requires Limits(x) == Limits(y)
    ensures x.rateLimit == y.rateLimit && x.ttl == y.ttl
  {
    LimitsMember(x, Entry(Integer(RATE_LIMIT), Integer(x.rateLimit)));
    LimitsMember(y, Entry(Integer(RATE_LIMIT), Integer(x.rateLimit)));
    LimitsMember(x, Entry(Integer(RATE_LIMIT), Integer(y.rateLimit)));
    LimitsMember(y, Entry(Integer(RATE_LIMIT), Integer(y.rateLimit)));
    LimitsMember(x, Entry(Integer(TTL), Integer(x.ttl)));
    LimitsMember(y, Entry(Integer(TTL), Integer(x.ttl)));
    LimitsMember(x, Entry(Integer(TTL), Integer(y.ttl)));
    LimitsMember(y, Entry(Integer(TTL), Integer(y.ttl)));
  }

  lemma EqualParts(x: ScopeParams, y: ScopeParams)
    requires ScopeEntries(x) == ScopeEntries(y) && |Limits(x)| == |Limits(y)|
    ensures x == y
  {
    hide Limits, Extended, ScopeEntries;
    EntriesAre(x);
    EntriesAre(y);
    var a, b, c, d := Limits(x), Extended(x.extensions), Limits(y), Extended(y.extensions);
    assert (a + b)[..|a|] == a && (c + d)[..|c|] == c && (a + b)[|a|..] == b && (c + d)[|c|..] == d;
    SameLimits(x, y);
    ExtendedInjective(x.extensions, y.extensions);
  }

  /** Two scopes are written alike exactly when they have the same form. */
  lemma WrittenAlike(x: ScopeParams, y: ScopeParams)
    ensures ScopeEntries(x) == ScopeEntries(y) <==> SameForm(x, y)
  {
    hide Limits, Extended, ScopeEntries, KeysFollow, Folded;
    ScopeKeysAscend(x);
    ScopeKeysAscend(y);
    if KeysFollow(x) {
      FoldedForm(x);
    }
    if KeysFollow(y) {
      FoldedForm(y);
    }
    if ScopeEntries(x) == ScopeEntries(y) {
      if KeysFollow(x) {
        ExtendedInjective(Folded(x), Folded(y));
      } else {
        if |Limits(x)| < |Limits(y)| {
          ShorterLimits(x, y);
        } else if |Limits(y)| < |Limits(x)| {
          ShorterLimits(y, x);
        } else {
          EqualParts(x, y);
        }
      }
    }
  }

  /** With extension keys of 3 and above only equal scopes have the same form. */
  lemma WireSafeForm(x: ScopeParams, y: ScopeParams)
    requires WireSafe(x) && WireSafe(y)
    ensures SameForm(x, y) <==> x == y
  {
    hide ScopeEntries, ReceivedScope, WireSafe;
    if SameForm(x, y) {
      WrittenAlike(x, y);
      ScopeDecodes(x);
      ScopeDecodes(y);
      ReceivedScopeIsSame(x);
      ReceivedScopeIsSame(y);
    }
  }
}
