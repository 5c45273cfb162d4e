/**
 * The WireGuard address allocator (`assign_next_address` and `reclaim_address` in
 * node/daemon/src/wireguard.rs).
 */
module Addresses {
  import opened Prelude
  import opened Decimal
  import opened Selecting

  const SPACE := 65536
  const FIRST := 2
  const CAPACITY := SPACE - FIRST

  /** The k-th address of the subnet: its last two octets are `k / 256` and `k % 256`. */
  function Candidate(k: nat): string {
    "100.222." + Print(k / 256) + "." + Print(k % 256)
  }

  /** Addresses count up by the last octet, then the third. */
  lemma FirstCandidates()
    ensures Candidate(2) == "100.222.0.2" && Candidate(255) == "100.222.0.255"
    ensures Candidate(256) == "100.222.1.0" && Candidate(65535) == "100.222.255.255"
  {
    PrintSmall();
  }

  /** Different octets print as different addresses. */
  lemma CandidateInjective(j: nat, k: nat)
    ensures Candidate(j) == Candidate(k) ==> j == k
  {
    if Candidate(j) == Candidate(k) {
      var prefix := "100.222.";
      var a, b := Print(j / 256) + "." + Print(j % 256), Print(k / 256) + "." + Print(k % 256);
      assert Candidate(j) == prefix + a && Candidate(k) == prefix + b;
      assert (prefix + a)[|prefix|..] == a && (prefix + b)[|prefix|..] == b;
      SplitAtSeparator(Print(j / 256), Print(k / 256), '.', Print(j % 256), Print(k % 256));
      ValuePrint(j / 256);
      ValuePrint(k / 256);
      ValuePrint(j % 256);
      ValuePrint(k % 256);
    }
  }

  lemma CandidateOctets(octet3: nat, octet4: nat)
    requires octet4 < 256
    ensures "100.222." + Print(octet3) + "." + Print(octet4) == Candidate(256 * octet3 + octet4)
  {
  }

  // ── Specification ─────────────────────────────────────────────────────────

  /** Every address of the space below the k-th is taken. */
  ghost predicate TakenBelow(addresses: seq<string>, k: nat) {
    forall j :: FIRST <= j < k ==> Candidate(j) in addresses
  }

  /** `k` is the least free place. */
  ghost predicate LeastFree(addresses: seq<string>, k: nat) {
    FIRST <= k < SPACE && Candidate(k) !in addresses && TakenBelow(addresses, k)
  }

  function Without(addresses: seq<string>, a: string): seq<string> {
    if addresses == [] then []
    else (if addresses[0] == a then [] else [addresses[0]]) + Without(addresses[1..], a)
  }

  lemma NoneTaken(addresses: seq<string>)
    ensures TakenBelow(addresses, FIRST)
  {
  }

  lemma TakenNext(addresses: seq<string>, k: nat)
    requires FIRST <= k && TakenBelow(addresses, k)
    ensures TakenBelow(addresses, k + 1) <==> Candidate(k) in addresses
    ensures k < SPACE && TakenBelow(addresses, SPACE) ==> Candidate(k) in addresses
  {
    hide Candidate;
  }

  // ── The allocator ─────────────────────────────────────────────────────────

  class AddressBook {
    var addresses: seq<string>

    constructor ()
      ensures addresses == []
    {
      addresses := [];
    }

    /** The two-octet search, in wrapping 8-bit arithmetic. */
    method AssignNextAddress() returns (r: Result<string>)
      modifies this
      ensures r.Ok? ==> exists k :: LeastFree(old(addresses), k) && r.value == Candidate(k)
      ensures r.Ok? ==> addresses == old(addresses) + [r.value]
      ensures r.Err? <==> TakenBelow(old(addresses), SPACE)
      ensures r.Err? ==> addresses == old(addresses)
    {
      hide Candidate, TakenBelow, Print;
      NoneTaken(addresses);
      var octet3, octet4 := 0, 2;
      while true
        invariant 0 <= octet3 < 256 && 0 <= octet4 < 256
        invariant FIRST <= 256 * octet3 + octet4
        invariant TakenBelow(addresses, 256 * octet3 + octet4)
        invariant addresses == old(addresses)
        decreases SPACE - (256 * octet3 + octet4)
      {
        ghost var k := 256 * octet3 + octet4;
        var candidate := "100.222." + Print(octet3) + "." + Print(octet4);
        CandidateOctets(octet3, octet4);
        TakenNext(addresses, k);
        if candidate !in addresses {
          assert LeastFree(addresses, k);
          addresses := addresses + [candidate];
          return Ok(candidate);
        }
        octet4 := (octet4 + 1) % 256;
        if octet4 == 0 {
          octet3 := (octet3 + 1) % 256;
          if octet3 == 0 {
            return Err;
          }
        }
      }
    }

    method ReclaimAddress(address: string)
      modifies this
      ensures addresses == Without(old(addresses), address)
    {
      addresses := Without(addresses, address);
    }
  }

  // ── Whole runs ────────────────────────────────────────────────────────────

  /** Distinct addresses of the space. */
  ghost predicate WellKept(addresses: seq<string>) {
    && Distinct(addresses)
    && forall a :: a in addresses ==> exists k :: FIRST <= k < SPACE && a == Candidate(k)
  }

  lemma AssignKeepsWell(addresses: seq<string>, k: nat)
    requires WellKept(addresses) && LeastFree(addresses, k)
    ensures WellKept(addresses + [Candidate(k)])
  {
    hide Candidate;
  }

  lemma ReclaimKeepsWell(addresses: seq<string>, a: string)
    requires WellKept(addresses)
    ensures WellKept(Without(addresses, a))
  {
    hide Candidate;
    WithoutMembers(addresses, a);
  }

  function Besides(a: string): string -> bool {
    x => x != a
  }

  /** Reclaiming takes out the address wherever it stands, and nothing else. */
  lemma {:induction false} WithoutSelects(addresses: seq<string>, a: string)
    ensures Selects(addresses, Without(addresses, a), Besides(a))
  {
    hide Selects;
    SelectsNone(Besides(a));
    if addresses != [] {
      WithoutSelects(addresses[1..], a);
      HeadSplit(addresses);
      SelectsCons(addresses[0], addresses[1..], Without(addresses[1..], a), Besides(a));
    }
  }

  lemma {:induction false} WithoutMembers(addresses: seq<string>, a: string)
    ensures forall x :: x in Without(addresses, a) <==> x in addresses && x != a
    ensures Distinct(addresses) ==> Distinct(Without(addresses, a))
  {
    if addresses != [] {
      WithoutMembers(addresses[1..], a);
      HeadSplit(addresses);
      if Distinct(addresses) {
        assert addresses[0] !in addresses[1..];
      }
    }
  }

  function Candidates(n: nat): (s: set<string>)
    requires FIRST <= n
  {
    set k | FIRST <= k < n :: Candidate(k)
  }

  lemma {:induction false} CandidateCount(n: nat)
    requires FIRST <= n
    ensures |Candidates(n)| == n - FIRST
  {
    if n == FIRST {
      assert Candidates(n) == {};
    } else {
      CandidateCount(n - 1);
      assert Candidates(n) == Candidates(n - 1) + {Candidate(n - 1)};
      if Candidate(n - 1) in Candidates(n - 1) {
        var k :| FIRST <= k < n - 1 && Candidate(k) == Candidate(n - 1);
        CandidateInjective(k, n - 1);
        assert false;
      }
    }
  }

  /** A well-kept list has room for exactly 65534 addresses, and is full exactly when assignment fails. */
  lemma FullWhenCapacity(addresses: seq<string>)
    requires WellKept(addresses)
    ensures |addresses| <= 65534
    ensures TakenBelow(addresses, SPACE) <==> |addresses| == 65534
  {
    var held := set x | x in addresses;
    DistinctSize(addresses);
    CandidateCount(SPACE);
    assert held <= Candidates(SPACE);
    SubsetSize(held, Candidates(SPACE));
    if TakenBelow(addresses, SPACE) {
      assert Candidates(SPACE) <= held;
      SubsetSize(Candidates(SPACE), held);
    }
    if |addresses| == CAPACITY {
      forall j | FIRST <= j < SPACE
        ensures Candidate(j) in addresses
      {
        assert Candidate(j) in Candidates(SPACE);
      }
    }
  }

  datatype Op = Assign | Reclaim(address: string)

  /** Any sequence of operations on a fresh book: no address is ever held twice or lost track of. */
  method RunBook(ops: seq<Op>) returns (addresses: seq<string>, refused: nat)
    ensures WellKept(addresses) && |addresses| <= 65534
    ensures |ops| < 65534 ==> refused == 0
  {
    var book := new AddressBook();
    refused := 0;
    for i := 0 to |ops|
      invariant WellKept(book.addresses)
      invariant |book.addresses| <= i
      invariant |ops| < CAPACITY ==> refused == 0
    {
      match ops[i]
      case Assign =>
        FullWhenCapacity(book.addresses);
        ghost var before := book.addresses;
        var r := book.AssignNextAddress();
        if r.Err? {
          refused := refused + 1;
        } else {
          assert r.value !in before;
        }
      case Reclaim(a) =>
        WithoutMembers(book.addresses, a);
        WithoutShrinks(book.addresses, a);
        book.ReclaimAddress(a);
    }
    addresses := book.addresses;
    FullWhenCapacity(addresses);
  }

  lemma {:induction false} WithoutShrinks(addresses: seq<string>, a: string)
    ensures |Without(addresses, a)| <= |addresses|
  {
    if addresses != [] {
      WithoutShrinks(addresses[1..], a);
    }
  }

  /** The first address of an empty book. */
  lemma FirstAssigned(k: nat)
    requires LeastFree([], k)
    ensures Candidate(k) == "100.222.0.2"
  {
    hide Candidate;
    FirstCandidates();
    assert Candidate(FIRST) !in [];
  }

  /** A reclaimed address is the next one assigned exactly when no lower address is free. */
  lemma ReclaimedIsNext(addresses: seq<string>, k: nat)
    requires FIRST <= k < SPACE
    ensures LeastFree(Without(addresses, Candidate(k)), k) <==> TakenBelow(addresses, k)
  {
    WithoutMembers(addresses, Candidate(k));
    forall j | FIRST <= j < k
      ensures Candidate(j) in Without(addresses, Candidate(k)) <==> Candidate(j) in addresses
    {
      CandidateInjective(j, k);
    }
  }
}
