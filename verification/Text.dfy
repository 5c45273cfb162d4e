/** Rust's `join`, `split` and `splitn` on a one-character separator. */
module Text {
  import opened Prelude
  import opened Decimal

  function Join(fields: seq<string>, c: char): string {
    if fields == [] then "" else if |fields| == 1 then fields[0] else fields[0] + [c] + Join(fields[1..], c)
  }

  /** At most `n` pieces; the last one keeps the remaining separators. */
  function SplitN(s: string, c: char, n: nat): (r: seq<string>)
    requires n > 0
    ensures 0 < |r| <= n
    ensures forall i :: 0 <= i < |r| - 1 ==> c !in r[i]
    ensures |r| < n ==> c !in r[|r| - 1]
    decreases n
  {
    if n == 1 || c !in s then [s] else [s[..IndexOf(s, c)]] + SplitN(s[IndexOf(s, c) + 1..], c, n - 1)
  }

  function Split(s: string, c: char): (r: seq<string>)
    ensures r != []
    ensures forall i :: 0 <= i < |r| ==> c !in r[i]
  {
    if c !in s then [s] else [s[..IndexOf(s, c)]] + Split(s[IndexOf(s, c) + 1..], c)
  }

  predicate Free(fields: seq<string>, c: char) {
    forall i :: 0 <= i < |fields| ==> c !in fields[i]
  }

  predicate AllButLastFree(fields: seq<string>, c: char) {
    forall i :: 0 <= i < |fields| - 1 ==> c !in fields[i]
  }

  lemma JoinCons(f: string, fields: seq<string>, c: char)
    requires fields != []
    ensures Join([f] + fields, c) == f + [c] + Join(fields, c)
  {
    assert ([f] + fields)[1..] == fields;
  }

  lemma SplitHead(f: string, c: char, rest: string)
    requires c !in f
    ensures Split(f + [c] + rest, c) == [f] + Split(rest, c)
    ensures forall n :: n > 1 ==> SplitN(f + [c] + rest, c, n) == [f] + SplitN(rest, c, n - 1)
  {
    IndexOfSeparator(f, c, rest);
    var s := f + [c] + rest;
    assert s[..|f|] == f && s[|f| + 1..] == rest;
  }

  lemma SplitNUnfold(s: string, c: char, n: nat)
    requires n > 0
    ensures SplitN(s, c, n)
            == if n == 1 || c !in s then [s] else [s[..IndexOf(s, c)]] + SplitN(s[IndexOf(s, c) + 1..], c, n - 1)
  {
    hide IndexOf;
  }

  lemma JoinOne(s: string, c: char)
    ensures Join([s], c) == s
  {
  }

  /** Splitting and joining gives the text back. */
  lemma {:induction false} SplitNJoin(s: string, c: char, n: nat)
    requires n > 0
    ensures Join(SplitN(s, c, n), c) == s
    decreases n
  {
    hide Join, SplitN, IndexOf;
    SplitNUnfold(s, c, n);
    JoinOne(s, c);
    if n > 1 && c in s {
      var i := IndexOf(s, c);
      SplitNJoin(s[i + 1..], c, n - 1);
      JoinCons(s[..i], SplitN(s[i + 1..], c, n - 1), c);
      assert s[..i] + [c] + s[i + 1..] == s;
    }
  }

  /** Fields without separators survive, and so does anything in the last of `n` fields. */
  lemma {:induction false} JoinSplitN(fields: seq<string>, c: char, n: nat)
    requires 0 < |fields| <= n
    requires AllButLastFree(fields, c)
    requires |fields| == n || c !in fields[|fields| - 1]
    ensures SplitN(Join(fields, c), c, n) == fields
    decreases n
  {
    if |fields| == 1 {
      assert fields == [fields[0]];
    } else {
      hide Join, SplitN;
      var rest := fields[1..];
      assert forall i :: 0 <= i < |rest| ==> rest[i] == fields[i + 1];
      JoinSplitN(rest, c, n - 1);
      HeadSplit(fields);
      JoinCons(fields[0], rest, c);
      SplitHead(fields[0], c, Join(rest, c));
    }
  }

  /** Exactly `n` fields survive if and only if all but the last are free of the separator. */
  lemma JoinSplitNExact(fields: seq<string>, c: char, n: nat)
    requires 0 < |fields| == n
    ensures SplitN(Join(fields, c), c, n) == fields <==> AllButLastFree(fields, c)
  {
    if AllButLastFree(fields, c) {
      JoinSplitN(fields, c, n);
    }
  }

  lemma {:induction false} JoinSplit(fields: seq<string>, c: char)
    requires fields != [] && Free(fields, c)
    ensures Split(Join(fields, c), c) == fields
  {
    if |fields| == 1 {
      assert fields == [fields[0]];
    } else {
      JoinSplit(fields[1..], c);
      SplitHead(fields[0], c, Join(fields[1..], c));
      HeadSplit(fields);
    }
  }

  // ── Comma-separated lists ─────────────────────────────────────────────────

  /** The empty text stands for the empty list. */
  function FromCsv(s: string): seq<string> {
    if s == "" then [] else Split(s, ',')
  }

  predicate CsvSafe(list: seq<string>) {
    Free(list, ',') && list != [""]
  }

  lemma JoinEmpty(list: seq<string>)
    ensures Join(list, ',') == "" ==> list == [] || list == [""]
  {
    if |list| > 1 {
      assert ',' in Join(list, ',');
    }
  }

  /** A list survives if and only if no entry has a comma and it is not the list of one empty entry. */
  lemma CsvRoundTrip(list: seq<string>)
    ensures FromCsv(Join(list, ',')) == list <==> CsvSafe(list)
  {
    if CsvSafe(list) && list != [] {
      JoinSplit(list, ',');
      JoinEmpty(list);
    }
  }

  lemma {:induction false} JoinFree(fields: seq<string>, c: char, d: char)
    requires Free(fields, d) && c != d
    ensures d !in Join(fields, c)
  {
    if |fields| > 1 {
      JoinFree(fields[1..], c, d);
    }
  }
}
