/** Scope parameters and their reconciliation (node/p2pcd-types/src/scope.rs). */
module Scope {
  import opened Prelude
  import opened Selecting

  datatype ScopeValue =
    | Uint(n: U64)
    | Text(t: Str)
    | Bool(b: bool)
    | Bytes(bs: Octets)
    | Array(items: seq<ScopeValue>)

  type Extensions = map<U64, ScopeValue>

  datatype ScopeParams = ScopeParams(rateLimit: U64, ttl: U64, extensions: Extensions)

  /** The scopes of a set of capabilities, by name. */
  type Params = map<Str, ScopeParams>

  const DEFAULT_SCOPE := ScopeParams(0, 0, map[])

  // ── Values ────────────────────────────────────────────────────────────────

  /** The more restrictive of two limits, where 0 means "no limit". */
  function Tighter(a: U64, b: U64): U64 {
    if a == 0 then b else if b == 0 then a else if a <= b then a else b
  }

  /** The elements of `a` that also occur in `b`, in the order of `a`. */
  function Restrict(a: seq<ScopeValue>, b: seq<ScopeValue>): (r: seq<ScopeValue>)
    ensures forall x :: x in r <==> x in a && x in b
  {
    if a == [] then []
    else (if a[0] in b then [a[0]] else []) + Restrict(a[1..], b)
  }

  function ReconcileValue(a: ScopeValue, b: ScopeValue): ScopeValue {
    match (a, b)
    case (Uint(m), Uint(n)) => Uint(Tighter(m, n))
    case (Array(xs), Array(ys)) => Array(Restrict(xs, ys))
    case _ => a
  }

  // ── Scopes ────────────────────────────────────────────────────────────────

  function MergedValue(a: Extensions, b: Extensions, k: U64): ScopeValue
    requires k in a || k in b
  {
    if k in a && k in b then ReconcileValue(a[k], b[k]) else if k in a then a[k] else b[k]
  }

  function MergeExtensions(a: Extensions, b: Extensions): Extensions {
    map k | k in a.Keys + b.Keys :: MergedValue(a, b, k)
  }

  /** What `x.reconcile(&y)` returns. */
  function Reconciled(x: ScopeParams, y: ScopeParams): ScopeParams {
    ScopeParams(Tighter(x.rateLimit, y.rateLimit), Tighter(x.ttl, y.ttl), MergeExtensions(x.extensions, y.extensions))
  }

  // ── What reconciling means ────────────────────────────────────────────────

  /** `r` is at least as strict as the limit `l`. */
  predicate Within(r: U64, l: U64) {
    l == 0 || 0 < r <= l
  }

  /** `r` is the loosest limit within both: what is within it is what is within both. */
  ghost predicate Loosest(r: U64, a: U64, b: U64) {
    forall l: U64 :: Within(l, r) <==> Within(l, a) && Within(l, b)
  }

  /** Some limit is within both, and none looser than the one chosen. */
  lemma TighterIsLoosest(a: U64, b: U64)
    ensures Loosest(Tighter(a, b), a, b)
  {
  }

  lemma LoosestOnly(r: U64, q: U64, a: U64, b: U64)
    requires Loosest(r, a, b) && Loosest(q, a, b)
    ensures r == q
  {
    assert r != 0 ==> Within(r, r);
    assert q != 0 ==> Within(q, q);
    assert Within(1, r) && Within(0, 0);
    assert Within(0, r) <==> Within(0, q);
  }

  function Among(items: seq<ScopeValue>): ScopeValue -> bool {
    v => v in items
  }

  lemma {:induction false} RestrictSelects(a: seq<ScopeValue>, b: seq<ScopeValue>)
    ensures Selects(a, Restrict(a, b), Among(b))
  {
    hide Selects;
    SelectsNone(Among(b));
    if a != [] {
      RestrictSelects(a[1..], b);
      HeadSplit(a);
      SelectsCons(a[0], a[1..], Restrict(a[1..], b), Among(b));
    }
  }

  /** Numbers meet as limits, arrays keep what the other side also has, and anything else stays as it is. */
  ghost predicate Meets(r: ScopeValue, a: ScopeValue, b: ScopeValue) {
    if a.Uint? && b.Uint? then r.Uint? && Loosest(r.n, a.n, b.n)
    else if a.Array? && b.Array? then r.Array? && Selects(a.items, r.items, Among(b.items))
    else r == a
  }

  lemma ReconcileMeets(a: ScopeValue, b: ScopeValue)
    ensures Meets(ReconcileValue(a, b), a, b)
  {
    hide Selects, Loosest;
    if a.Uint? && b.Uint? {
      TighterIsLoosest(a.n, b.n);
    } else if a.Array? && b.Array? {
      RestrictSelects(a.items, b.items);
    }
  }

  /** `r` has every key of either map: shared values meet, the others are as declared. */
  ghost predicate MergesExtensions(r: Extensions, a: Extensions, b: Extensions) {
    && r.Keys == a.Keys + b.Keys
    && forall k :: k in r ==>
         if k in a && k in b then Meets(r[k], a[k], b[k]) else r[k] == if k in a then a[k] else b[k]
  }

  /** What the reconciliation of two scopes has to be. */
  ghost predicate Merges(r: ScopeParams, x: ScopeParams, y: ScopeParams) {
    && Loosest(r.rateLimit, x.rateLimit, y.rateLimit)
    && Loosest(r.ttl, x.ttl, y.ttl)
    && MergesExtensions(r.extensions, x.extensions, y.extensions)
  }

  lemma ReconciledMerges(x: ScopeParams, y: ScopeParams)
    ensures Merges(Reconciled(x, y), x, y)
  {
    hide Meets, Loosest, ReconcileValue;
    TighterIsLoosest(x.rateLimit, y.rateLimit);
    TighterIsLoosest(x.ttl, y.ttl);
    forall k | k in x.extensions && k in y.extensions
      ensures Meets(ReconcileValue(x.extensions[k], y.extensions[k]), x.extensions[k], y.extensions[k])
    {
      ReconcileMeets(x.extensions[k], y.extensions[k]);
    }
  }

  lemma MeetsOnly(r: ScopeValue, q: ScopeValue, a: ScopeValue, b: ScopeValue)
    requires Meets(r, a, b) && Meets(q, a, b)
    ensures r == q
  {
    hide Selects, Loosest;
    if a.Uint? && b.Uint? {
      LoosestOnly(r.n, q.n, a.n, b.n);
    } else if a.Array? && b.Array? {
      SelectsOnly(a.items, r.items, q.items, Among(b.items));
    }
  }

  /** Only one scope is the reconciliation of two. */
  lemma MergesOnly(r: ScopeParams, x: ScopeParams, y: ScopeParams)
    ensures Merges(r, x, y) <==> r == Reconciled(x, y)
  {
    hide Meets, Loosest, Reconciled;
    ReconciledMerges(x, y);
    var q := Reconciled(x, y);
    if Merges(r, x, y) {
      LoosestOnly(r.rateLimit, q.rateLimit, x.rateLimit, y.rateLimit);
      LoosestOnly(r.ttl, q.ttl, x.ttl, y.ttl);
      forall k | k in r.extensions
        ensures r.extensions[k] == q.extensions[k]
      {
        if k in x.extensions && k in y.extensions {
          MeetsOnly(r.extensions[k], q.extensions[k], x.extensions[k], y.extensions[k]);
        }
      }
      assert r.extensions == q.extensions;
    }
  }

  /** The source's loop over the union of both key sets; the result does not depend on the order. */
  method Reconcile(x: ScopeParams, y: ScopeParams) returns (r: ScopeParams)
    ensures r == Reconciled(x, y)
    ensures Merges(r, x, y)
  {
    ReconciledMerges(x, y);
    hide Merges;
    var a, b := x.extensions, y.extensions;
    var pending := a.Keys + b.Keys;
    var merged: Extensions := map[];
    while pending != {}
      invariant pending <= a.Keys + b.Keys
      invariant merged.Keys == a.Keys + b.Keys - pending
      invariant forall k :: k in merged ==> merged[k] == MergedValue(a, b, k)
    {
      var key :| key in pending;
      if key in a && key in b {
        merged := merged[key := ReconcileValue(a[key], b[key])];
      } else if key in a {
        merged := merged[key := a[key]];
      } else {
        merged := merged[key := b[key]];
      }
      pending := pending - {key};
    }
    r := ScopeParams(Tighter(x.rateLimit, y.rateLimit), Tighter(x.ttl, y.ttl), merged);
  }

  // ── Restriction of arrays ─────────────────────────────────────────────────

  lemma {:induction false} RestrictAll(a: seq<ScopeValue>, b: seq<ScopeValue>)
    requires forall x :: x in a ==> x in b
    ensures Restrict(a, b) == a
  {
    if a != [] {
      RestrictAll(a[1..], b);
      assert a == [a[0]] + a[1..];
    }
  }

  lemma {:induction false} RestrictTwice(a: seq<ScopeValue>, b: seq<ScopeValue>, c: seq<ScopeValue>)
    ensures Restrict(Restrict(a, b), c) == Restrict(a, Restrict(b, c))
  {
    if a != [] {
      RestrictTwice(a[1..], b, c);
      var rest := Restrict(a[1..], b);
      if a[0] in b {
        assert ([a[0]] + rest)[1..] == rest;
      } else {
        assert [] + rest == rest;
      }
    }
  }

  /** A restriction that removes nothing was a restriction to a superset. */
  lemma RestrictIsAll(a: seq<ScopeValue>, b: seq<ScopeValue>)
    ensures Restrict(a, b) == a <==> forall x :: x in a ==> x in b
  {
    if forall x :: x in a ==> x in b {
      RestrictAll(a, b);
    }
  }

  // ── Laws of reconciliation ────────────────────────────────────────────────

  lemma ValueFixpoint(a: ScopeValue, b: ScopeValue)
    ensures ReconcileValue(ReconcileValue(a, b), ReconcileValue(b, a)) == ReconcileValue(a, b)
    ensures ReconcileValue(a, a) == a
  {
    if a.Array? {
      RestrictAll(a.items, a.items);
      if b.Array? {
        RestrictAll(Restrict(a.items, b.items), Restrict(b.items, a.items));
      }
    }
  }

  /**
   * The CONFIRM round is a fixpoint: reconciling two peers' reconciled scopes
   * gives back what each already had.
   */
  lemma ReconcileFixpoint(x: ScopeParams, y: ScopeParams)
    ensures Reconciled(Reconciled(x, y), Reconciled(y, x)) == Reconciled(x, y)
  {
    var a, b := x.extensions, y.extensions;
    var ab, ba := MergeExtensions(a, b), MergeExtensions(b, a);
    forall k | k in ab
      ensures MergeExtensions(ab, ba)[k] == ab[k]
    {
      if k in a && k in b {
        ValueFixpoint(a[k], b[k]);
      } else if k in a {
        ValueFixpoint(a[k], a[k]);
      } else {
        ValueFixpoint(b[k], b[k]);
      }
    }
    assert MergeExtensions(ab, ba) == ab;
  }

  lemma ReconcileIdempotent(x: ScopeParams)
    ensures Reconciled(x, x) == x
  {
    var a := x.extensions;
    forall k | k in a
      ensures MergeExtensions(a, a)[k] == a[k]
    {
      ValueFixpoint(a[k], a[k]);
    }
    assert MergeExtensions(a, a) == a;
  }

  /** Two values of the same type. */
  predicate SameKind(a: ScopeValue, b: ScopeValue) {
    || (a.Uint? && b.Uint?)
    || (a.Text? && b.Text?)
    || (a.Bool? && b.Bool?)
    || (a.Bytes? && b.Bytes?)
    || (a.Array? && b.Array?)
  }

  predicate ValuesAssociate(a: ScopeValue, b: ScopeValue, c: ScopeValue) {
    SameKind(a, b) || ReconcileValue(a, c) == a
  }

  lemma ValueAssociative(a: ScopeValue, b: ScopeValue, c: ScopeValue)
    ensures ReconcileValue(ReconcileValue(a, b), c) == ReconcileValue(a, ReconcileValue(b, c))
            <==> ValuesAssociate(a, b, c)
  {
    if a.Array? && b.Array? && c.Array? {
      RestrictTwice(a.items, b.items, c.items);
    }
  }

  lemma MergeAssociativeAt(a: Extensions, b: Extensions, c: Extensions, k: U64)
    requires k in a || k in b || k in c
    ensures k in MergeExtensions(MergeExtensions(a, b), c) && k in MergeExtensions(a, MergeExtensions(b, c))
    ensures MergeExtensions(MergeExtensions(a, b), c)[k] == MergeExtensions(a, MergeExtensions(b, c))[k]
            <==> (k in a && k in b && k in c ==> ValuesAssociate(a[k], b[k], c[k]))
  {
    if k in a && k in b && k in c {
      ValueAssociative(a[k], b[k], c[k]);
    }
  }

  predicate ScopesAssociate(a: Extensions, b: Extensions, c: Extensions) {
    forall k :: k in a && k in b && k in c ==> ValuesAssociate(a[k], b[k], c[k])
  }

  lemma MergeAssociative(a: Extensions, b: Extensions, c: Extensions)
    ensures MergeExtensions(MergeExtensions(a, b), c) == MergeExtensions(a, MergeExtensions(b, c))
            <==> ScopesAssociate(a, b, c)
  {
    var l, r := MergeExtensions(MergeExtensions(a, b), c), MergeExtensions(a, MergeExtensions(b, c));
    if ScopesAssociate(a, b, c) {
      forall k | k in l
        ensures l[k] == r[k]
      {
        MergeAssociativeAt(a, b, c, k);
      }
      assert l.Keys == r.Keys;
    } else {
      var k :| k in a && k in b && k in c && !ValuesAssociate(a[k], b[k], c[k]);
      MergeAssociativeAt(a, b, c, k);
    }
  }

  /**
   * Reconciliation associates exactly when, at every key all three scopes declare,
   * the first two values have one type or the third leaves the first unchanged.
   */
  lemma ReconcileAssociative(x: ScopeParams, y: ScopeParams, z: ScopeParams)
    ensures Reconciled(Reconciled(x, y), z) == Reconciled(x, Reconciled(y, z))
            <==> ScopesAssociate(x.extensions, y.extensions, z.extensions)
  {
    MergeAssociative(x.extensions, y.extensions, z.extensions);
  }

  // ── What the two peers agree on ───────────────────────────────────────────

  /** The pairs of declared values on which both reconciliation orders give one result. */
  predicate ValuesAgree(a: ScopeValue, b: ScopeValue) {
    match (a, b)
    case (Uint(_), Uint(_)) => true
    case (Array(xs), Array(ys)) => Restrict(xs, ys) == Restrict(ys, xs)
    case _ => a == b
  }

  predicate ScopesAgree(x: ScopeParams, y: ScopeParams) {
    forall k :: k in x.extensions && k in y.extensions ==> ValuesAgree(x.extensions[k], y.extensions[k])
  }

  /** Both orders give the same scope exactly when every shared key agrees. */
  lemma ReconcileCommutes(x: ScopeParams, y: ScopeParams)
    ensures Reconciled(x, y) == Reconciled(y, x) <==> ScopesAgree(x, y)
  {
    var a, b := x.extensions, y.extensions;
    var ab, ba := MergeExtensions(a, b), MergeExtensions(b, a);
    assert ab.Keys == ba.Keys;
    forall k | k in ab
      ensures ab[k] == ba[k] <==> (k in a && k in b ==> ValuesAgree(a[k], b[k]))
    {
    }
    assert ab == ba <==> forall k :: k in ab ==> ab[k] == ba[k];
  }

  /** The part of a scope on which the two reconciliation orders never differ. */
  ghost predicate SharedView(p: ScopeParams, q: ScopeParams, x: ScopeParams, y: ScopeParams) {
    && p.rateLimit == q.rateLimit
    && p.ttl == q.ttl
    && p.extensions.Keys == q.extensions.Keys == x.extensions.Keys + y.extensions.Keys
    && (forall k :: k in p.extensions && !(k in x.extensions && k in y.extensions) ==>
          p.extensions[k] == q.extensions[k])
    && (forall k :: k in x.extensions && k in y.extensions && x.extensions[k].Uint? && y.extensions[k].Uint?
          ==> p.extensions[k] == q.extensions[k])
    && (forall k :: k in x.extensions && k in y.extensions && x.extensions[k].Array? && y.extensions[k].Array?
          ==> p.extensions[k].Array? && q.extensions[k].Array?
              && forall v :: v in p.extensions[k].items <==> v in q.extensions[k].items)
  }

  lemma ReconcileSharedView(x: ScopeParams, y: ScopeParams)
    ensures SharedView(Reconciled(x, y), Reconciled(y, x), x, y)
  {
  }

  // ── Restrictiveness ───────────────────────────────────────────────────────

  /** A scope that declares nothing changes nothing. */
  lemma ReconcileDefault(x: ScopeParams)
    ensures Reconciled(x, ScopeParams(0, 0, map[])) == x && Reconciled(ScopeParams(0, 0, map[]), x) == x
  {
    assert MergeExtensions(x.extensions, map[]) == x.extensions;
    assert MergeExtensions(map[], x.extensions) == x.extensions;
  }

  /** No finite limit declared in `x` is loosened in `r`. */
  ghost predicate NeverLooser(r: ScopeParams, x: ScopeParams) {
    && Within(r.rateLimit, x.rateLimit)
    && Within(r.ttl, x.ttl)
    && (forall k :: k in x.extensions && x.extensions[k].Uint? ==>
          k in r.extensions && r.extensions[k].Uint? && Within(r.extensions[k].n, x.extensions[k].n))
  }

  lemma ReconcileNeverLooser(w: ScopeParams, x: ScopeParams, y: ScopeParams)
    requires NeverLooser(x, w)
    ensures NeverLooser(Reconciled(x, y), w)
    ensures NeverLooser(x, x)
  {
  }
}
