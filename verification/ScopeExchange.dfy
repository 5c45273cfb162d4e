/** What two rounds of reconciliation over the wire leave each side with. */
module ScopeExchange {
  import opened Prelude
  import opened Scope
  import opened Codec

  /**
   * A side's scope after both rounds: its first round against the peer's declaration as
   * received, then against the peer's first round as received.
   */
  function HeldScope(x: ScopeParams, y: ScopeParams): ScopeParams {
    Reconciled(Reconciled(x, ReceivedScope(y)), ReceivedScope(Reconciled(y, ReceivedScope(x))))
  }

  /** The limit of key 1 or 2 that the two sides settle on. */
  function SettledLimit(a: U64, x: Extensions, b: U64, y: Extensions, key: U64): U64 {
    Tighter(ReceivedLimit(a, x, key), ReceivedLimit(b, y, key))
  }

  lemma SettledInTwoRounds(a: U64, x: Extensions, b: U64, y: Extensions, key: U64)
    requires key <= TTL
    ensures Tighter(Tighter(a, ReceivedLimit(b, y, key)),
                    ReceivedLimit(Tighter(b, ReceivedLimit(a, x, key)), MergeExtensions(y, AboveLimits(x)), key))
            == SettledLimit(a, x, b, y, key)
  {
    assert key in MergeExtensions(y, AboveLimits(x)) <==> key in y;
  }

  lemma SecondRoundKeeps(x: Extensions, y: Extensions)
    ensures MergeExtensions(MergeExtensions(x, AboveLimits(y)), AboveLimits(MergeExtensions(y, AboveLimits(x))))
            == MergeExtensions(x, AboveLimits(y))
  {
    hide ReconcileValue;
    var first, reply := MergeExtensions(x, AboveLimits(y)), AboveLimits(MergeExtensions(y, AboveLimits(x)));
    forall k | k in first
      ensures MergeExtensions(first, reply)[k] == first[k]
    {
      if k > TTL {
        if k in x && k in y {
          ValueFixpoint(x[k], y[k]);
        } else if k in x {
          ValueFixpoint(x[k], x[k]);
        } else {
          ValueFixpoint(y[k], y[k]);
        }
      }
    }
    assert MergeExtensions(first, reply) == first;
  }

  /** The second round settles the limits and leaves the extensions of the first. */
  lemma HeldScopeIs(x: ScopeParams, y: ScopeParams)
    ensures HeldScope(x, y)
            == ScopeParams(
                 SettledLimit(x.rateLimit, x.extensions, y.rateLimit, y.extensions, RATE_LIMIT),
                 SettledLimit(x.ttl, x.extensions, y.ttl, y.extensions, TTL),
                 MergeExtensions(x.extensions, AboveLimits(y.extensions)))
  {
    hide Tighter, ReceivedLimit, AboveLimits, MergeExtensions;
    SettledInTwoRounds(x.rateLimit, x.extensions, y.rateLimit, y.extensions, RATE_LIMIT);
    SettledInTwoRounds(x.ttl, x.extensions, y.ttl, y.extensions, TTL);
    SecondRoundKeeps(x.extensions, y.extensions);
  }

  /** Whatever the extensions, both sides settle on the same limits. */
  lemma HeldLimitsAgree(x: ScopeParams, y: ScopeParams)
    ensures HeldScope(x, y).rateLimit == HeldScope(y, x).rateLimit
    ensures HeldScope(x, y).ttl == HeldScope(y, x).ttl
  {
    HeldScopeIs(x, y);
    HeldScopeIs(y, x);
  }

  /** With extension keys of 3 and above the second round changes nothing. */
  lemma HeldIsReconciled(x: ScopeParams, y: ScopeParams)
    requires WireSafe(x) && WireSafe(y)
    ensures HeldScope(x, y) == Reconciled(x, y)
  {
    HeldScopeIs(x, y);
    assert AboveLimits(y.extensions) == y.extensions;
  }

  // ── When the two sides agree ──────────────────────────────────────────────

  /** Numbers are equal, arrays hold the same elements. */
  predicate ValuesShared(a: ScopeValue, b: ScopeValue) {
    && (a.Uint? && b.Uint? ==> a == b)
    && (a.Array? && b.Array?
       ==> (forall v :: v in a.items ==> v in b.items) && (forall v :: v in b.items ==> v in a.items))
  }

  /** The extensions under the limits' own keys, which the encoding does not carry, match already. */
  predicate LowKeysShared(x: Extensions, y: Extensions) {
    && (forall k :: k in x && k <= TTL ==> k in y && ValuesShared(x[k], y[k]))
    && (forall k :: k in y && k <= TTL ==> k in x)
  }

  /** The value either side holds under a key. */
  lemma HeldValue(x: Extensions, y: Extensions, k: U64)
    ensures k in MergeExtensions(x, AboveLimits(y)) <==> k in x || (k in y && TTL < k)
    ensures k in x && (k !in y || k <= TTL) ==> MergeExtensions(x, AboveLimits(y))[k] == x[k]
    ensures k in y && k !in x && TTL < k ==> MergeExtensions(x, AboveLimits(y))[k] == y[k]
    ensures k in x && k in y && TTL < k ==> MergeExtensions(x, AboveLimits(y))[k] == ReconcileValue(x[k], y[k])
  {
  }

  /**
   * What a side ends up with: the loosest limits within both as received, every key it
   * declares or the peer declares above the limits' own, shared values above them met.
   */
  lemma HeldMeets(x: ScopeParams, y: ScopeParams)
    ensures var p := HeldScope(x, y);
            && Loosest(p.rateLimit, ReceivedScope(x).rateLimit, ReceivedScope(y).rateLimit)
            && Loosest(p.ttl, ReceivedScope(x).ttl, ReceivedScope(y).ttl)
            && MergesExtensions(p.extensions, x.extensions, AboveLimits(y.extensions))
  {
    hide Loosest, Meets, Tighter, ReceivedLimit, AboveLimits;
    HeldScopeIs(x, y);
    hide HeldScope;
    TighterIsLoosest(ReceivedScope(x).rateLimit, ReceivedScope(y).rateLimit);
    TighterIsLoosest(ReceivedScope(x).ttl, ReceivedScope(y).ttl);
    ReconciledMerges(ScopeParams(0, 0, x.extensions), ScopeParams(0, 0, AboveLimits(y.extensions)));
  }

  /** With extension keys of 3 and above a side ends up with what reconciling the two declarations has to be. */
  lemma HeldMerges(x: ScopeParams, y: ScopeParams)
    requires WireSafe(x) && WireSafe(y)
    ensures Merges(HeldScope(x, y), x, y)
  {
    hide Merges;
    HeldIsReconciled(x, y);
    ReconciledMerges(x, y);
  }

  /** `p` holds what a peer that declares `a` to one that declares `b` ends up with. */
  ghost predicate HoldsMerged(p: Extensions, a: Extensions, b: Extensions) {
    forall k: U64 ::
      && (k in p <==> k in a || (k in b && TTL < k))
      && (k in a && (k !in b || k <= TTL) ==> p[k] == a[k])
      && (k in b && k !in a && TTL < k ==> p[k] == b[k])
      && (k in a && k in b && TTL < k ==> p[k] == ReconcileValue(a[k], b[k]))
  }

  lemma HeldIsMerged(x: ScopeParams, y: ScopeParams)
    ensures HoldsMerged(HeldScope(x, y).extensions, x.extensions, y.extensions)
  {
    hide HeldScope, MergeExtensions, SettledLimit, AboveLimits, ReconcileValue;
    HeldScopeIs(x, y);
    forall k: U64 {
      HeldValue(x.extensions, y.extensions, k);
    }
  }

  lemma SharedMeansLow(p: ScopeParams, q: ScopeParams, x: ScopeParams, y: ScopeParams)
    requires HoldsMerged(p.extensions, x.extensions, y.extensions)
    requires HoldsMerged(q.extensions, y.extensions, x.extensions)
    requires SharedView(p, q, x, y)
    ensures LowKeysShared(x.extensions, y.extensions)
  {
  }

  lemma LowMeansShared(p: ScopeParams, q: ScopeParams, x: ScopeParams, y: ScopeParams)
    requires HoldsMerged(p.extensions, x.extensions, y.extensions)
    requires HoldsMerged(q.extensions, y.extensions, x.extensions)
    requires p.rateLimit == q.rateLimit && p.ttl == q.ttl && LowKeysShared(x.extensions, y.extensions)
    ensures SharedView(p, q, x, y)
  {
    assert p.extensions.Keys == x.extensions.Keys + y.extensions.Keys;
    assert q.extensions.Keys == x.extensions.Keys + y.extensions.Keys;
  }

  /**
   * Numbers, one-sided extensions and array contents agree exactly when what the two
   * declare under keys below 3 agrees to begin with.
   */
  lemma HeldSharedView(x: ScopeParams, y: ScopeParams)
    ensures SharedView(HeldScope(x, y), HeldScope(y, x), x, y) <==> LowKeysShared(x.extensions, y.extensions)
  {
    hide HeldScope, HoldsMerged, SharedView, LowKeysShared;
    HeldIsMerged(x, y);
    HeldIsMerged(y, x);
    HeldLimitsAgree(x, y);
    if SharedView(HeldScope(x, y), HeldScope(y, x), x, y) {
      SharedMeansLow(HeldScope(x, y), HeldScope(y, x), x, y);
    }
    if LowKeysShared(x.extensions, y.extensions) {
      LowMeansShared(HeldScope(x, y), HeldScope(y, x), x, y);
    }
  }

  /** Both maps say the same about a key. */
  predicate SameAt(p: Extensions, q: Extensions, k: U64) {
    (k in p <==> k in q) && (k in p && k in q ==> p[k] == q[k])
  }

  lemma SameEverywhere(p: Extensions, q: Extensions)
    ensures p == q <==> forall k: U64 :: SameAt(p, q, k)
  {
    if forall k: U64 :: SameAt(p, q, k) {
      assert forall k: U64 :: k in p ==> SameAt(p, q, k);
      assert forall k: U64 :: k in q ==> SameAt(p, q, k);
      assert p.Keys == q.Keys;
    }
  }

  /** The declarations under a key lead both sides to the same. */
  predicate AgreesAt(x: Extensions, y: Extensions, k: U64) {
    if k <= TTL then SameAt(x, y, k) else k in x && k in y ==> ValuesAgree(x[k], y[k])
  }

  lemma HeldSameAt(x: Extensions, y: Extensions, k: U64)
    ensures SameAt(MergeExtensions(x, AboveLimits(y)), MergeExtensions(y, AboveLimits(x)), k) <==> AgreesAt(x, y, k)
  {
    hide MergeExtensions;
    HeldValue(x, y, k);
    HeldValue(y, x, k);
  }

  /**
   * The two sides hold one and the same scope exactly when their declarations are equal
   * under keys below 3 and agree under every shared key above.
   */
  lemma HeldScopesEqual(x: ScopeParams, y: ScopeParams)
    ensures HeldScope(x, y) == HeldScope(y, x) <==> forall k: U64 :: AgreesAt(x.extensions, y.extensions, k)
  {
    var a, b := x.extensions, y.extensions;
    HeldScopeIs(x, y);
    HeldScopeIs(y, x);
    HeldLimitsAgree(x, y);
    hide HeldScope, SettledLimit, MergeExtensions, SameAt, AgreesAt;
    SameEverywhere(MergeExtensions(a, AboveLimits(b)), MergeExtensions(b, AboveLimits(a)));
    forall k: U64
      ensures SameAt(MergeExtensions(a, AboveLimits(b)), MergeExtensions(b, AboveLimits(a)), k) <==> AgreesAt(a, b, k)
    {
      HeldSameAt(a, b, k);
    }
  }
}
