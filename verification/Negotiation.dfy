/**
 * Which capabilities two manifests activate and with which scopes
 * (`compute_intersection` in scope.rs; `reconcile_params`, `reconcile_confirm_params`
 * and `intersect_sets` in session.rs).
 */
module Negotiation {
  import opened Prelude
  import opened Selecting
  import opened Sorting
  import opened Scope
  import opened Messages

  const HEARTBEAT := Ascii("core.session.heartbeat.1")

  /** A trust gate: capability name and the peer id of the remote manifest. */
  type Gate = (Str, PeerId) -> bool

  // ── Active set ────────────────────────────────────────────────────────────

  predicate Pairs(local: Capability, remote: Capability) {
    local.name == remote.name && Matches(local.role, remote.role, local.mutual, remote.mutual)
  }

  predicate Passes(gate: Gate, name: Str, peer: PeerId) {
    name == HEARTBEAT || gate(name, peer)
  }

  /** Declarations of one name of which one offers what the other wants; two that do both are both mutual. */
  predicate Complementary(a: Capability, b: Capability) {
    && a.name == b.name
    && ((Offers(a.role) && Wants(b.role)) || (Offers(b.role) && Wants(a.role)))
    && (a.role.Both? && b.role.Both? ==> a.mutual && b.mutual)
  }

  lemma PairsByRoles(a: Capability, b: Capability)
    ensures Pairs(a, b) <==> Complementary(a, b)
  {
    MatchesByRoles(a.role, b.role, a.mutual, b.mutual);
  }

  /** `local` has a counterpart among `remotes` and is let through. */
  predicate Activates(local: Capability, remotes: seq<Capability>, peer: PeerId, gate: Gate) {
    (exists j :: 0 <= j < |remotes| && Pairs(local, remotes[j])) && Passes(gate, local.name, peer)
  }

  /** The names of the activating declarations, in declaration order. */
  function Candidates(locals: seq<Capability>, remotes: seq<Capability>, peer: PeerId, gate: Gate): seq<Str> {
    if locals == [] then []
    else
      (if Activates(locals[0], remotes, peer, gate) then [locals[0].name] else [])
      + Candidates(locals[1..], remotes, peer, gate)
  }

  /** What `compute_intersection` returns. */
  function Intersection(local: Manifest, remote: Manifest, gate: Gate): seq<Str> {
    SortBy(Candidates(local.capabilities, remote.capabilities, remote.peerId, gate), StrLe)
  }

  lemma {:induction false} CandidatesSnoc(locals: seq<Capability>, c: Capability, remotes: seq<Capability>,
                                          peer: PeerId, gate: Gate)
    ensures Candidates(locals + [c], remotes, peer, gate)
            == Candidates(locals, remotes, peer, gate) + (if Activates(c, remotes, peer, gate) then [c.name] else [])
  {
    hide Activates;
    if locals == [] {
      assert locals + [c] == [c];
    } else {
      var head := if Activates(locals[0], remotes, peer, gate) then [locals[0].name] else [];
      var last := if Activates(c, remotes, peer, gate) then [c.name] else [];
      assert (locals + [c])[1..] == locals[1..] + [c];
      CandidatesSnoc(locals[1..], c, remotes, peer, gate);
      Associative(head, Candidates(locals[1..], remotes, peer, gate), last);
    }
  }

  /** The source's nested loops with their `continue`s and `break`, then the sort. */
  method ComputeIntersection(local: Manifest, remote: Manifest, gate: Gate) returns (active: seq<Str>)
    ensures active == Intersection(local, remote, gate)
  {
    var locals, remotes := local.capabilities, remote.capabilities;
    active := [];
    for i := 0 to |locals|
      invariant active == Candidates(locals[..i], remotes, remote.peerId, gate)
    {
      ghost var before := active;
      var c := locals[i];
      LastSplit(locals[..i + 1]);
      assert locals[..i + 1][..i] == locals[..i];
      CandidatesSnoc(locals[..i], c, remotes, remote.peerId, gate);
      for j := 0 to |remotes|
        invariant active == before
        invariant !Activates(c, remotes[..j], remote.peerId, gate)
      {
        var r := remotes[j];
        if c.name != r.name {
          continue;
        }
        if !Matches(c.role, r.role, c.mutual, r.mutual) {
          continue;
        }
        if c.name != HEARTBEAT && !gate(c.name, remote.peerId) {
          continue;
        }
        active := active + [c.name];
        assert Pairs(c, remotes[j]);
        break;
      }
      assert remotes[..|remotes|] == remotes;
    }
    assert locals[..|locals|] == locals;
    active := SortBy(active, StrLe);
  }

  // ── Scopes of an active set ───────────────────────────────────────────────

  function ScopeOrDefault(c: Option<Capability>): ScopeParams {
    match c
    case Some(cap) => (match cap.scope case Some(s) => s case None => DEFAULT_SCOPE)
    case None => DEFAULT_SCOPE
  }

  /** The scope the first declaration of `name` carries. */
  function DeclaredScope(m: Manifest, name: Str): ScopeParams {
    ScopeOrDefault(FirstNamed(m.capabilities, name))
  }

  /** The first declaration of a name counts; one without a scope, or none, declares nothing. */
  lemma {:induction false} FirstNamedAt(caps: seq<Capability>, name: Str, i: nat)
    requires i <= |caps| && forall j :: 0 <= j < i ==> caps[j].name != name
    ensures i < |caps| && caps[i].name == name ==> FirstNamed(caps, name) == Some(caps[i])
    ensures i == |caps| ==> FirstNamed(caps, name) == None
  {
    if i > 0 {
      assert forall j :: 0 <= j < i - 1 ==> caps[1..][j] == caps[j + 1];
      FirstNamedAt(caps[1..], name, i - 1);
    }
  }

  lemma DeclaredScopeIs(m: Manifest, name: Str, i: nat)
    requires i <= |m.capabilities| && forall j :: 0 <= j < i ==> m.capabilities[j].name != name
    requires i < |m.capabilities| ==> m.capabilities[i].name == name
    ensures DeclaredScope(m, name)
            == if i < |m.capabilities| && m.capabilities[i].scope.Some? then m.capabilities[i].scope.value
               else ScopeParams(0, 0, map[])
  {
    FirstNamedAt(m.capabilities, name, i);
  }

  /** What `reconcile_params` returns. */
  function ParamsFor(active: seq<Str>, local: Manifest, remote: Manifest): Params {
    map n | n in active :: Reconciled(DeclaredScope(local, n), DeclaredScope(remote, n))
  }

  method ReconcileParams(active: seq<Str>, local: Manifest, remote: Manifest) returns (r: Params)
    ensures r == ParamsFor(active, local, remote)
  {
    r := map[];
    for i := 0 to |active|
      invariant r == ParamsFor(active[..i], local, remote)
    {
      var s := Reconcile(DeclaredScope(local, active[i]), DeclaredScope(remote, active[i]));
      r := r[active[i] := s];
      assert forall n :: n in active[..i + 1] <==> n in active[..i] || n == active[i];
    }
    assert active[..|active|] == active;
  }

  function ParamOrDefault(p: Params, name: Str): ScopeParams {
    if name in p then p[name] else DEFAULT_SCOPE
  }

  /** What `reconcile_confirm_params` returns. */
  function ConfirmedParams(active: seq<Str>, ours: Params, theirs: Params): Params {
    map n | n in active :: Reconciled(ParamOrDefault(ours, n), ParamOrDefault(theirs, n))
  }

  lemma NothingConfirmed(ours: Params, theirs: Params)
    ensures ConfirmedParams([], ours, theirs) == map[]
  {
  }

  lemma ConfirmedSnoc(active: seq<Str>, n: Str, ours: Params, theirs: Params)
    ensures ConfirmedParams(active + [n], ours, theirs)
            == var s := Reconciled(ParamOrDefault(ours, n), ParamOrDefault(theirs, n));
               ConfirmedParams(active, ours, theirs)[n := s]
  {
    hide ParamOrDefault, Reconciled;
  }

  /** A scope the other CONFIRM does not carry leaves ours as it is. */
  lemma ConfirmedWithout(active: seq<Str>, ours: Params, theirs: Params, n: Str)
    requires n in active && n in ours && n !in theirs
    ensures n in ConfirmedParams(active, ours, theirs) && ConfirmedParams(active, ours, theirs)[n] == ours[n]
  {
    hide Reconciled;
    ReconcileDefault(ours[n]);
  }

  method ReconcileConfirmParams(active: seq<Str>, ours: Params, theirs: Params) returns (r: Params)
    ensures r == ConfirmedParams(active, ours, theirs)
  {
    hide ConfirmedParams, ParamOrDefault, Reconciled;
    r := map[];
    NothingConfirmed(ours, theirs);
    for i := 0 to |active|
      invariant r == ConfirmedParams(active[..i], ours, theirs)
    {
      var s := Reconcile(ParamOrDefault(ours, active[i]), ParamOrDefault(theirs, active[i]));
      ConfirmedSnoc(active[..i], active[i], ours, theirs);
      assert active[..i + 1] == active[..i] + [active[i]];
      r := r[active[i] := s];
    }
    assert active[..|active|] == active;
  }

  // ── Agreed set ────────────────────────────────────────────────────────────

  function Keep(a: seq<Str>, b: seq<Str>): (r: seq<Str>)
    ensures forall n :: n in r <==> n in a && n in b
  {
    if a == [] then [] else (if a[0] in b then [a[0]] else []) + Keep(a[1..], b)
  }

  function AlsoIn(names: seq<Str>): Str -> bool {
    n => n in names
  }

  lemma {:induction false} KeepSelects(a: seq<Str>, b: seq<Str>)
    ensures Selects(a, Keep(a, b), AlsoIn(b))
  {
    hide Selects;
    SelectsNone(AlsoIn(b));
    if a != [] {
      KeepSelects(a[1..], b);
      HeadSplit(a);
      SelectsCons(a[0], a[1..], Keep(a[1..], b), AlsoIn(b));
    }
  }

  /** What `intersect_sets` returns. */
  function Agreed(ours: seq<Str>, theirs: seq<Str>): seq<Str> {
    SortBy(Keep(ours, theirs), StrLe)
  }

  lemma AgreedMembers(ours: seq<Str>, theirs: seq<Str>)
    ensures forall n :: n in Agreed(ours, theirs) <==> n in ours && n in theirs
  {
    SortByMembers(Keep(ours, theirs), StrLe);
  }

  // ── Laws ──────────────────────────────────────────────────────────────────

  lemma MatchesSymmetric(a: Role, b: Role, aMutual: bool, bMutual: bool)
    ensures Matches(a, b, aMutual, bMutual) == Matches(b, a, bMutual, aMutual)
  {
  }

  /** Some declaration of `name` in `locals` has a counterpart in `remotes`. */
  predicate Compatible(locals: seq<Capability>, remotes: seq<Capability>, name: Str) {
    exists i, j :: 0 <= i < |locals| && 0 <= j < |remotes| && locals[i].name == name && Pairs(locals[i], remotes[j])
  }

  /** Some declaration of the name on one side offers what one on the other wants. */
  lemma CompatibleByRoles(locals: seq<Capability>, remotes: seq<Capability>, name: Str)
    ensures Compatible(locals, remotes, name)
            <==> exists a, b :: a in locals && b in remotes && a.name == name && Complementary(a, b)
  {
    hide Complementary, Pairs;
    if Compatible(locals, remotes, name) {
      var i, j :| 0 <= i < |locals| && 0 <= j < |remotes| && locals[i].name == name && Pairs(locals[i], remotes[j]);
      PairsByRoles(locals[i], remotes[j]);
      assert locals[i] in locals && remotes[j] in remotes;
    }
    if a, b :| a in locals && b in remotes && a.name == name && Complementary(a, b) {
      var i, j :| 0 <= i < |locals| && locals[i] == a && 0 <= j < |remotes| && remotes[j] == b;
      PairsByRoles(a, b);
    }
  }

  lemma CompatibleSymmetric(a: seq<Capability>, b: seq<Capability>, name: Str)
    requires Compatible(a, b, name)
    ensures Compatible(b, a, name)
  {
    var i, j :| 0 <= i < |a| && 0 <= j < |b| && a[i].name == name && Pairs(a[i], b[j]);
    MatchesSymmetric(a[i].role, b[j].role, a[i].mutual, b[j].mutual);
    assert Pairs(b[j], a[i]);
  }

  lemma {:induction false} CandidatesMember(locals: seq<Capability>, remotes: seq<Capability>, peer: PeerId,
                                            gate: Gate, name: Str)
    ensures name in Candidates(locals, remotes, peer, gate)
            <==> exists i :: 0 <= i < |locals| && locals[i].name == name && Activates(locals[i], remotes, peer, gate)
  {
    hide Activates;
    if locals != [] {
      var rest := locals[1..];
      CandidatesMember(rest, remotes, peer, gate, name);
      if i :| 0 <= i < |locals| && locals[i].name == name && Activates(locals[i], remotes, peer, gate) {
        assert i == 0 || rest[i - 1] == locals[i];
      }
      if i :| 0 <= i < |rest| && rest[i].name == name && Activates(rest[i], remotes, peer, gate) {
        assert locals[i + 1] == rest[i];
      }
    }
  }

  /**
   * A name is active exactly when a declaration of it on one side offers what one on the
   * other wants and it is the heartbeat's or the local gate lets it pass.
   */
  lemma ActiveByRoles(local: Manifest, remote: Manifest, gate: Gate, name: Str)
    ensures name in Intersection(local, remote, gate)
            <==> && (exists a, b ::
                       a in local.capabilities && b in remote.capabilities && a.name == name && Complementary(a, b))
                 && (name == Ascii("core.session.heartbeat.1") || gate(name, remote.peerId))
  {
    hide Complementary, Intersection, Compatible;
    IntersectionMember(local, remote, gate, name);
    CompatibleByRoles(local.capabilities, remote.capabilities, name);
  }

  /** Active sets are in the order of names. */
  lemma ActiveSetsAreSorted(local: Manifest, remote: Manifest, gate: Gate, theirs: seq<Str>)
    ensures SortedBy(Intersection(local, remote, gate), StrLe)
    ensures SortedBy(Agreed(Intersection(local, remote, gate), theirs), StrLe)
  {
    hide Keep, Candidates, SortBy;
    StrLeIsTotalOrder();
    SortBySorted(Candidates(local.capabilities, remote.capabilities, remote.peerId, gate), StrLe);
    SortBySorted(Keep(Intersection(local, remote, gate), theirs), StrLe);
  }

  /** A name is active exactly when both manifests declare it in matching roles and the local gate lets it pass. */
  lemma IntersectionMember(local: Manifest, remote: Manifest, gate: Gate, name: Str)
    ensures name in Intersection(local, remote, gate)
            <==> Compatible(local.capabilities, remote.capabilities, name) && Passes(gate, name, remote.peerId)
  {
    var a, b := local.capabilities, remote.capabilities;
    SortByMembers(Candidates(a, b, remote.peerId, gate), StrLe);
    CandidatesMember(a, b, remote.peerId, gate, name);
    if Compatible(a, b, name) && Passes(gate, name, remote.peerId) {
      var i, j :| 0 <= i < |a| && 0 <= j < |b| && a[i].name == name && Pairs(a[i], b[j]);
      assert Activates(a[i], b, remote.peerId, gate);
    }
  }
}
