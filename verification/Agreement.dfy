/** Why two peers that confirm to each other end with the same capabilities. */
module Agreement {
  import opened Prelude
  import opened Sorting
  import opened Scope
  import opened Messages
  import opened Wire
  import opened Negotiation
  import opened Codec

  // ── The wire does not change what is negotiated ───────────────────────────

  lemma ReceivedActivates(c: Capability, remotes: seq<Capability>, peer: PeerId, gate: Gate)
    ensures Activates(c, ReceivedCaps(SortCapabilities(remotes)), peer, gate) == Activates(c, remotes, peer, gate)
  {
    hide ReceivedScope, Matches;
    var sorted := SortCapabilities(remotes);
    var received := ReceivedCaps(sorted);
    SortByMembers(remotes, NameLe);
    if j :| 0 <= j < |remotes| && Pairs(c, remotes[j]) {
      assert remotes[j] in sorted;
      var k :| 0 <= k < |sorted| && sorted[k] == remotes[j];
      assert Pairs(c, received[k]);
    }
    if k :| 0 <= k < |received| && Pairs(c, received[k]) {
      assert sorted[k] in remotes;
      var j :| 0 <= j < |remotes| && remotes[j] == sorted[k];
      assert Pairs(c, remotes[j]);
    }
  }

  lemma {:induction false} ReceivedCandidates(locals: seq<Capability>, remotes: seq<Capability>, peer: PeerId,
                                              gate: Gate)
    ensures Candidates(locals, ReceivedCaps(SortCapabilities(remotes)), peer, gate)
            == Candidates(locals, remotes, peer, gate)
  {
    hide Activates, ReceivedCaps, SortCapabilities;
    if locals != [] {
      ReceivedActivates(locals[0], remotes, peer, gate);
      ReceivedCandidates(locals[1..], remotes, peer, gate);
    }
  }

  lemma ReceivedIntersection(local: Manifest, remote: Manifest, gate: Gate)
    ensures Intersection(local, ReceivedManifest(remote), gate) == Intersection(local, remote, gate)
  {
    ReceivedCandidates(local.capabilities, remote.capabilities, remote.peerId, gate);
  }

  lemma {:induction false} FirstNamedReceived(cs: seq<Capability>, name: Str)
    ensures ScopeOrDefault(FirstNamed(ReceivedCaps(cs), name)) == ReceivedScope(ScopeOrDefault(FirstNamed(cs, name)))
  {
    hide ReceivedScope;
    if cs == [] {
      DefaultReceived();
    } else {
      FirstNamedReceived(cs[1..], name);
      DefaultReceived();
      assert ReceivedCaps(cs)[1..] == ReceivedCaps(cs[1..]);
    }
  }

  lemma DefaultReceived()
    ensures ReceivedScope(DEFAULT_SCOPE) == DEFAULT_SCOPE
  {
    assert AboveLimits(map[]) == map[];
  }

  /** Both peers read the same declaration of a name, even when a manifest repeats it. */
  lemma ReceivedDeclaredScope(m: Manifest, name: Str)
    ensures DeclaredScope(ReceivedManifest(m), name) == ReceivedScope(DeclaredScope(m, name))
  {
    FirstNamedReceived(SortCapabilities(m.capabilities), name);
    FirstNamedSorted(m.capabilities, name);
  }

  // ── Agreed names ──────────────────────────────────────────────────────────

  /** What `local` ends with when it and `remote` exchange their own intersections. */
  function FinalSet(local: Manifest, localGate: Gate, remote: Manifest, remoteGate: Gate): seq<Str> {
    Agreed(Intersection(local, remote, localGate), Intersection(remote, local, remoteGate))
  }

  /** A name is agreed exactly when both declare it in matching roles and both gates let it pass. */
  lemma FinalSetMember(local: Manifest, localGate: Gate, remote: Manifest, remoteGate: Gate, name: Str)
    ensures name in FinalSet(local, localGate, remote, remoteGate)
            <==> Compatible(local.capabilities, remote.capabilities, name)
                 && Passes(localGate, name, remote.peerId) && Passes(remoteGate, name, local.peerId)
  {
    hide Compatible, Passes, Intersection, Agreed;
    AgreedMembers(Intersection(local, remote, localGate), Intersection(remote, local, remoteGate));
    IntersectionMember(local, remote, localGate, name);
    IntersectionMember(remote, local, remoteGate, name);
    if Compatible(local.capabilities, remote.capabilities, name) {
      CompatibleSymmetric(local.capabilities, remote.capabilities, name);
    }
    if Compatible(remote.capabilities, local.capabilities, name) {
      CompatibleSymmetric(remote.capabilities, local.capabilities, name);
    }
  }

  /**
   * A name is agreed exactly when a declaration of it on one side offers what one on the
   * other wants and it is the heartbeat's or both gates let it pass.
   */
  lemma AgreedByRoles(local: Manifest, localGate: Gate, remote: Manifest, remoteGate: Gate, name: Str)
    ensures name in FinalSet(local, localGate, remote, remoteGate)
            <==> && (exists a, b ::
                       a in local.capabilities && b in remote.capabilities && a.name == name && Complementary(a, b))
                 && (name == Ascii("core.session.heartbeat.1")
                     || (localGate(name, remote.peerId) && remoteGate(name, local.peerId)))
  {
    hide FinalSet, Complementary, Compatible;
    FinalSetMember(local, localGate, remote, remoteGate, name);
    CompatibleByRoles(local.capabilities, remote.capabilities, name);
  }

  predicate HasCounterpart(c: Capability, remotes: seq<Capability>) {
    exists j :: 0 <= j < |remotes| && Pairs(c, remotes[j])
  }

  /** How many declarations of `name` in `locals` have a counterpart in `remotes`. */
  function Declarations(locals: seq<Capability>, remotes: seq<Capability>, name: Str): nat {
    if locals == [] then 0
    else (if locals[0].name == name && HasCounterpart(locals[0], remotes) then 1 else 0)
         + Declarations(locals[1..], remotes, name)
  }

  lemma {:induction false} CandidateCount(locals: seq<Capability>, remotes: seq<Capability>, peer: PeerId, gate: Gate,
                                          name: Str)
    ensures multiset(Candidates(locals, remotes, peer, gate))[name]
            == if Passes(gate, name, peer) then Declarations(locals, remotes, name) else 0
  {
    hide HasCounterpart, Passes;
    if locals != [] {
      CandidateCount(locals[1..], remotes, peer, gate, name);
      CandidateCountHead(locals, remotes, peer, gate, name);
    }
  }

  lemma CandidateCountHead(locals: seq<Capability>, remotes: seq<Capability>, peer: PeerId, gate: Gate, name: Str)
    requires locals != []
    ensures multiset(Candidates(locals, remotes, peer, gate))[name]
            == multiset(Candidates(locals[1..], remotes, peer, gate))[name]
               + if locals[0].name == name && HasCounterpart(locals[0], remotes) && Passes(gate, name, peer)
                 then 1 else 0
  {
    var head := if Activates(locals[0], remotes, peer, gate) then [locals[0].name] else [];
    assert multiset(head + Candidates(locals[1..], remotes, peer, gate))
        == multiset(head) + multiset(Candidates(locals[1..], remotes, peer, gate));
  }

  lemma {:induction false} KeepCount(a: seq<Str>, b: seq<Str>, name: Str)
    ensures multiset(Keep(a, b))[name] == if name in b then multiset(a)[name] else 0
  {
    if a != [] {
      KeepCount(a[1..], b, name);
      HeadSplit(a);
      var head := if a[0] in b then [a[0]] else [];
      assert multiset(Keep(a, b)) == multiset(head) + multiset(Keep(a[1..], b));
      assert multiset(a) == multiset{a[0]} + multiset(a[1..]);
    }
  }

  lemma FinalSetCount(local: Manifest, localGate: Gate, remote: Manifest, remoteGate: Gate, name: Str)
    requires name in FinalSet(local, localGate, remote, remoteGate)
    ensures multiset(FinalSet(local, localGate, remote, remoteGate))[name]
            == Declarations(local.capabilities, remote.capabilities, name)
  {
    hide Declarations, Passes;
    var ours, theirs := Intersection(local, remote, localGate), Intersection(remote, local, remoteGate);
    FinalSetMember(local, localGate, remote, remoteGate, name);
    AgreedMembers(ours, theirs);
    KeepCount(ours, theirs, name);
    CandidateCount(local.capabilities, remote.capabilities, remote.peerId, localGate, name);
  }

  lemma SortedNames(s: seq<Str>)
    ensures SortedBy(SortBy(s, StrLe), StrLe)
  {
    StrLeIsTotalOrder();
    SortBySorted(s, StrLe);
  }

  /** Two sorted name lists are equal when every name occurs equally often. */
  lemma SortedNamesEqual(a: seq<Str>, b: seq<Str>)
    requires SortedBy(a, StrLe) && SortedBy(b, StrLe)
    ensures a == b <==> forall n :: n in a || n in b ==> multiset(a)[n] == multiset(b)[n]
  {
    if forall n :: n in a || n in b ==> multiset(a)[n] == multiset(b)[n] {
      forall n: Str
        ensures multiset(a)[n] == multiset(b)[n]
      {
        if n !in a && n !in b {
          assert n !in multiset(a) && n !in multiset(b);
        }
      }
      assert multiset(a) == multiset(b);
      StrLeIsTotalOrder();
      SortedUnique(a, b, StrLe);
    }
  }

  /** Both sides agree on the names, whatever the manifests and gates. */
  lemma SameNames(a: Manifest, aGate: Gate, b: Manifest, bGate: Gate)
    ensures forall n :: n in FinalSet(a, aGate, b, bGate) <==> n in FinalSet(b, bGate, a, aGate)
    ensures FinalSet(a, aGate, b, bGate) == [] <==> FinalSet(b, bGate, a, aGate) == []
  {
    hide Compatible, Passes, FinalSet;
    var l, r := FinalSet(a, aGate, b, bGate), FinalSet(b, bGate, a, aGate);
    forall n: Str
      ensures n in l <==> n in r
    {
      FinalSetMember(a, aGate, b, bGate, n);
      FinalSetMember(b, bGate, a, aGate, n);
      if Compatible(a.capabilities, b.capabilities, n) {
        CompatibleSymmetric(a.capabilities, b.capabilities, n);
      }
      if Compatible(b.capabilities, a.capabilities, n) {
        CompatibleSymmetric(b.capabilities, a.capabilities, n);
      }
    }
    if l != [] {
      assert l[0] in r;
    }
    if r != [] {
      assert r[0] in l;
    }
  }

  /**
   * Both sides hold the same sequence exactly when each agreed name has as many
   * matched declarations in one manifest as in the other.
   */
  lemma SameSequence(a: Manifest, aGate: Gate, b: Manifest, bGate: Gate)
    ensures FinalSet(a, aGate, b, bGate) == FinalSet(b, bGate, a, aGate)
            <==> forall n :: n in FinalSet(a, aGate, b, bGate) ==>
                               Declarations(a.capabilities, b.capabilities, n)
                                   == Declarations(b.capabilities, a.capabilities, n)
  {
    var l, r := FinalSet(a, aGate, b, bGate), FinalSet(b, bGate, a, aGate);
    hide Declarations, Agreed, Intersection;
    SortedFinalSets(a, aGate, b, bGate);
    SortedFinalSets(b, bGate, a, aGate);
    SameNames(a, aGate, b, bGate);
    SortedNamesEqual(l, r);
    forall n | n in l
      ensures multiset(l)[n] == multiset(r)[n]
              <==> Declarations(a.capabilities, b.capabilities, n) == Declarations(b.capabilities, a.capabilities, n)
    {
      FinalSetCount(a, aGate, b, bGate, n);
      FinalSetCount(b, bGate, a, aGate, n);
    }
  }

  lemma SortedFinalSets(a: Manifest, aGate: Gate, b: Manifest, bGate: Gate)
    ensures SortedBy(FinalSet(a, aGate, b, bGate), StrLe)
  {
    SortedNames(Keep(Intersection(a, b, aGate), Intersection(b, a, bGate)));
  }

  // ── Distinct names ────────────────────────────────────────────────────────

  lemma {:induction false} NoDeclarations(locals: seq<Capability>, remotes: seq<Capability>, name: Str)
    requires forall i :: 0 <= i < |locals| ==> locals[i].name != name
    ensures Declarations(locals, remotes, name) == 0
  {
    if locals != [] {
      NoDeclarations(locals[1..], remotes, name);
    }
  }

  lemma {:induction false} DistinctDeclarations(locals: seq<Capability>, remotes: seq<Capability>, name: Str)
    requires DistinctNames(locals) && Compatible(locals, remotes, name)
    ensures Declarations(locals, remotes, name) == 1
  {
    var i, j :| 0 <= i < |locals| && 0 <= j < |remotes| && locals[i].name == name && Pairs(locals[i], remotes[j]);
    if i == 0 {
      NoDeclarations(locals[1..], remotes, name);
    } else {
      var rest := locals[1..];
      assert rest[i - 1] == locals[i];
      DistinctDeclarations(rest, remotes, name);
    }
  }

  /** With distinct names in each manifest both sides hold the same sequence. */
  lemma DistinctSameSequence(a: Manifest, aGate: Gate, b: Manifest, bGate: Gate)
    requires DistinctNames(a.capabilities) && DistinctNames(b.capabilities)
    ensures FinalSet(a, aGate, b, bGate) == FinalSet(b, bGate, a, aGate)
  {
    hide FinalSet, Declarations, DistinctNames, Compatible;
    SameSequence(a, aGate, b, bGate);
    forall n | n in FinalSet(a, aGate, b, bGate)
      ensures Declarations(a.capabilities, b.capabilities, n) == Declarations(b.capabilities, a.capabilities, n)
    {
      FinalSetMember(a, aGate, b, bGate, n);
      CompatibleSymmetric(a.capabilities, b.capabilities, n);
      DistinctDeclarations(a.capabilities, b.capabilities, n);
      DistinctDeclarations(b.capabilities, a.capabilities, n);
    }
  }
}
