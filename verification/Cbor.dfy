/**
 * The CBOR data items the wire format uses, with a concrete byte encoding of
 * the definite-length subset (section 3.1 of RFC 8949).
 */
module Cbor {
  import opened Prelude
  import opened BigEndian

  type CborInt = x: int | -0x1_0000_0000_0000_0000 <= x < 0x1_0000_0000_0000_0000

  datatype Value =
    | Integer(i: CborInt)
    | Bytes(bs: Octets)
    | Text(t: Str)
    | Array(items: seq<Value>)
    | Map(entries: seq<Entry>)
    | Bool(b: bool)
    | Null

  datatype Entry = Entry(key: Value, val: Value)

  // ── Encoding ──────────────────────────────────────────────────────────────

  /** A data item head: the major type with the shortest form of its argument. */
  function Head(major: nat, n: nat): (r: Octets)
    requires major < 8
    ensures |r| >= 1
  {
    if n < 24 then [32 * major + n]
    else if n < 0x100 then [32 * major + 24] + ToBe(n, 1)
    else if n < 0x1_0000 then [32 * major + 25] + ToBe(n, 2)
    else if n < 0x1_0000_0000 then [32 * major + 26] + ToBe(n, 4)
    else [32 * major + 27] + ToBe(n, 8)
  }

  /** The initial byte and the argument, in the shortest of the five forms (section 3 of RFC 8949). */
  lemma HeadLayout(major: nat, n: U64)
    requires major < 8
    ensures var h := Head(major, n);
            && h[0] / 32 == major
            && (n < 24 ==> h[0] % 32 == n && |h| == 1)
            && (n >= 24 ==> FromBe(h[1..]) == n)
            && (24 <= n < 256 ==> h[0] % 32 == 24 && |h| == 2)
            && (256 <= n < 65536 ==> h[0] % 32 == 25 && |h| == 3)
            && (65536 <= n < 0x1_0000_0000 ==> h[0] % 32 == 26 && |h| == 5)
            && (0x1_0000_0000 <= n ==> h[0] % 32 == 27 && |h| == 9)
  {
    hide ToBe, FromBe, Range;
    Ranges();
    var h := Head(major, n);
    if n >= 24 {
      var width := |h| - 1;
      assert h[1..] == ToBe(n, width);
      FromBeToBe(n, width);
    }
  }

  /** Examples of appendix A of RFC 8949. */
  lemma Examples()
    ensures EncodeValue(Integer(0)) == [0x00] && EncodeValue(Integer(23)) == [0x17]
    ensures EncodeValue(Integer(100)) == [0x18, 0x64] && EncodeValue(Integer(1000)) == [0x19, 0x03, 0xE8]
    ensures EncodeValue(Integer(-1)) == [0x20] && EncodeValue(Integer(-100)) == [0x38, 0x63]
    ensures EncodeValue(Bool(false)) == [0xF4] && EncodeValue(Bool(true)) == [0xF5] && EncodeValue(Null) == [0xF6]
    ensures EncodeValue(Bytes([1, 2, 3, 4])) == [0x44, 1, 2, 3, 4]
    ensures EncodeValue(Text(Ascii("IETF"))) == [0x64, 0x49, 0x45, 0x54, 0x46]
  {
    SmallToBe();
    assert Ascii("IETF") == [0x49, 0x45, 0x54, 0x46];
  }

  lemma SmallToBe()
    ensures ToBe(100, 1) == [100] && ToBe(99, 1) == [99] && ToBe(1000, 2) == [3, 232]
  {
    assert ToBe(3, 1) == [3];
  }

  lemma NestedExamples()
    ensures EncodeValue(Array([])) == [0x80] && EncodeValue(Map([])) == [0xA0]
    ensures EncodeValue(Array([Integer(1), Integer(2)])) == [0x82, 0x01, 0x02]
    ensures EncodeValue(Map([Entry(Integer(1), Integer(2)), Entry(Integer(3), Integer(4))])) == [0xA2, 1, 2, 3, 4]
  {
    ItemsOf([Integer(1), Integer(2)]);
    ItemsOf([Integer(2)]);
    EntriesOf([Entry(Integer(1), Integer(2)), Entry(Integer(3), Integer(4))]);
    EntriesOf([Entry(Integer(3), Integer(4))]);
  }

  lemma ItemsOf(vs: seq<Value>)
    requires vs != []
    ensures EncodeItems(vs) == EncodeValue(vs[0]) + EncodeItems(vs[1..])
  {
  }

  lemma EntriesOf(es: seq<Entry>)
    requires es != []
    ensures EncodeEntries(es) == EncodeValue(es[0].key) + EncodeValue(es[0].val) + EncodeEntries(es[1..])
  {
    hide EncodeValue;
  }

  function EncodeValue(v: Value): (r: Octets)
    ensures |r| >= 1
    decreases v, 0
  {
    match v
    case Integer(i) => if i >= 0 then Head(0, i) else Head(1, -1 - i)
    case Bytes(bs) => Head(2, |bs|) + bs
    case Text(t) => Head(3, |t|) + t
    case Array(items) => Head(4, |items|) + EncodeItems(items)
    case Map(entries) => Head(5, |entries|) + EncodeEntries(entries)
    case Bool(b) => [if b then 0xF5 else 0xF4]
    case Null => [0xF6]
  }

  function EncodeItems(vs: seq<Value>): (r: Octets)
    ensures |r| >= |vs|
    decreases vs, 0
  {
    if vs == [] then [] else EncodeValue(vs[0]) + EncodeItems(vs[1..])
  }

  function EncodeEntries(es: seq<Entry>): (r: Octets)
    ensures |r| >= |es|
    decreases es, 0
  {
    if es == [] then []
    else EncodeEntry(es[0]) + EncodeEntries(es[1..])
  }

  function EncodeEntry(e: Entry): (r: Octets)
    ensures |r| >= 1
    decreases e, 0
  {
    EncodeValue(e.key) + EncodeValue(e.val)
  }

  // ── Decoding ──────────────────────────────────────────────────────────────

  datatype HeadParse = HeadParse(major: nat, arg: U64, info: nat, rest: Octets)

  /** The argument carried by the `width` bytes after the initial byte. */
  function WideHead(major: nat, info: nat, width: nat, b: Octets): (r: Option<HeadParse>)
    requires |b| >= 1 && 1 <= width <= 8
    ensures r.Some? ==> |r.value.rest| < |b|
  {
    if |b| < 1 + width then
      None
    else
      FromBeBound(b[1..1 + width]);
      RangeMonotone(width, 8);
      Ranges();
      Some(HeadParse(major, FromBe(b[1..1 + width]), info, b[1 + width..]))
  }

  lemma {:induction false} RangeMonotone(a: nat, b: nat)
    requires a <= b
    ensures Range(a) <= Range(b)
  {
    if a < b {
      RangeMonotone(a, b - 1);
    }
  }

  function DecodeHead(b: Octets): (r: Option<HeadParse>)
    ensures r.Some? ==> |r.value.rest| < |b|
  {
    if b == [] then
      None
    else
      var major, info := b[0] / 32, b[0] % 32;
      if info < 24 then Some(HeadParse(major, info, info, b[1..]))
      else if info == 24 then WideHead(major, info, 1, b)
      else if info == 25 then WideHead(major, info, 2, b)
      else if info == 26 then WideHead(major, info, 4, b)
      else if info == 27 then WideHead(major, info, 8, b)
      else None
  }

  /** The first data item of `b` and the bytes after it. */
  function DecodeValue(b: Octets): (r: Option<(Value, Octets)>)
    ensures r.Some? ==> |r.value.1| < |b|
    decreases |b|, 0
  {
    match DecodeHead(b)
    case None => None
    case Some(h) =>
      if h.major == 0 then Some((Integer(h.arg), h.rest))
      else if h.major == 1 then Some((Integer(-1 - h.arg), h.rest))
      else if h.major == 2 then (if h.arg > |h.rest| then None else Some((Bytes(h.rest[..h.arg]), h.rest[h.arg..])))
      else if h.major == 3 then (if h.arg > |h.rest| then None else Some((Text(h.rest[..h.arg]), h.rest[h.arg..])))
      else if h.major == 4 then
        (match DecodeItems(h.rest, h.arg)
         case None => None
         case Some((vs, rest)) => Some((Array(vs), rest)))
      else if h.major == 5 then
        (match DecodeEntries(h.rest, h.arg)
         case None => None
         case Some((es, rest)) => Some((Map(es), rest)))
      else if h.major == 7 && h.info == 20 then Some((Bool(false), h.rest))
      else if h.major == 7 && h.info == 21 then Some((Bool(true), h.rest))
      else if h.major == 7 && h.info == 22 then Some((Null, h.rest))
      else None
  }

  /** The three simple values are single bytes. */
  lemma SimpleItems(b: Octets)
    requires b != []
    ensures b[0] == 0xF4 <==> DecodeValue(b) == Some((Bool(false), b[1..]))
    ensures b[0] == 0xF5 <==> DecodeValue(b) == Some((Bool(true), b[1..]))
    ensures b[0] == 0xF6 <==> DecodeValue(b) == Some((Null, b[1..]))
  {
    hide DecodeItems, DecodeEntries, FromBe;
    assert b[0] == 32 * (b[0] / 32) + b[0] % 32;
  }

  /** Tags, other simple values, floats, reserved forms and indefinite lengths are refused. */
  lemma OtherItemsRefused(b: Octets)
    requires b != [] && (b[0] % 32 >= 28 || b[0] >= 0xC0) && b[0] !in {0xF4, 0xF5, 0xF6}
    ensures DecodeValue(b) == None
  {
    hide DecodeItems, DecodeEntries;
  }

  function DecodeItems(b: Octets, n: nat): (r: Option<(seq<Value>, Octets)>)
    ensures r.Some? ==> |r.value.1| <= |b|
    decreases |b|, 1
  {
    if n == 0 then
      Some(([], b))
    else
      match DecodeValue(b)
      case None => None
      case Some((v, rest)) =>
        match DecodeItems(rest, n - 1)
        case None => None
        case Some((vs, rest')) => Some(([v] + vs, rest'))
  }

  function DecodeEntries(b: Octets, n: nat): (r: Option<(seq<Entry>, Octets)>)
    ensures r.Some? ==> |r.value.1| <= |b|
    decreases |b|, 1
  {
    if n == 0 then
      Some(([], b))
    else
      match DecodeValue(b)
      case None => None
      case Some((k, afterKey)) =>
        match DecodeValue(afterKey)
        case None => None
        case Some((v, rest)) =>
          match DecodeEntries(rest, n - 1)
          case None => None
          case Some((es, rest')) => Some(([Entry(k, v)] + es, rest'))
  }

  // ── Round trip ────────────────────────────────────────────────────────────

  const MAX_LEN := 0x1_0000_0000_0000_0000

  lemma WideHeadRoundTrip(major: nat, info: nat, n: U64, width: nat, tail: Octets)
    requires major < 8 && info < 32 && 1 <= width <= 8 && n < Range(width)
    ensures WideHead(major, info, width, [32 * major + info] + ToBe(n, width) + tail)
            == Some(HeadParse(major, n, info, tail))
  {
    var b := [32 * major + info] + ToBe(n, width) + tail;
    assert b[1..1 + width] == ToBe(n, width);
    assert b[1 + width..] == tail;
    FromBeToBe(n, width);
  }

  lemma HeadRoundTrip(major: nat, n: U64, tail: Octets)
    requires major < 8
    ensures DecodeHead(Head(major, n) + tail).Some?
    ensures DecodeHead(Head(major, n) + tail).value.major == major
    ensures DecodeHead(Head(major, n) + tail).value.arg == n
    ensures DecodeHead(Head(major, n) + tail).value.rest == tail
  {
    hide WideHead, ToBe, Range;
    Ranges();
    var b := Head(major, n) + tail;
    assert b[0] == Head(major, n)[0];
    if n < 24 {
      assert b[1..] == tail;
    } else if n < 0x100 {
      WideHeadRoundTrip(major, 24, n, 1, tail);
    } else if n < 0x1_0000 {
      WideHeadRoundTrip(major, 25, n, 2, tail);
    } else if n < 0x1_0000_0000 {
      WideHeadRoundTrip(major, 26, n, 4, tail);
    } else {
      WideHeadRoundTrip(major, 27, n, 8, tail);
    }
  }

  lemma StringRoundTrip(major: nat, text: Octets, tail: Octets)
    requires major == 2 || major == 3
    requires |text| < MAX_LEN
    ensures DecodeValue(Head(major, |text|) + text + tail)
            == Some((if major == 2 then Bytes(text) else Text(text), tail))
  {
    hide Head, DecodeHead;
    Associative(Head(major, |text|), text, tail);
    HeadRoundTrip(major, |text|, text + tail);
    assert (text + tail)[..|text|] == text && (text + tail)[|text|..] == tail;
  }

  lemma IntegerRoundTrip(i: int, tail: Octets)
    requires -MAX_LEN <= i < MAX_LEN
    ensures DecodeValue(EncodeValue(Integer(i)) + tail) == Some((Integer(i), tail))
  {
    hide Head, DecodeHead;
    if i >= 0 { HeadRoundTrip(0, i, tail); } else { HeadRoundTrip(1, -1 - i, tail); }
  }

  lemma LeafRoundTrip(v: Value, tail: Octets)
    requires |EncodeValue(v)| < MAX_LEN && !v.Array? && !v.Map?
    ensures DecodeValue(EncodeValue(v) + tail) == Some((v, tail))
  {
    match v
    case Integer(i) => IntegerRoundTrip(i, tail);
    case Bytes(bs) => StringRoundTrip(2, bs, tail);
    case Text(t) => StringRoundTrip(3, t, tail);
    case Bool(b) => assert (EncodeValue(v) + tail)[1..] == tail;
    case Null => assert (EncodeValue(v) + tail)[1..] == tail;
  }

  lemma {:induction false} ValueRoundTrip(v: Value, tail: Octets)
    requires |EncodeValue(v)| < MAX_LEN
    ensures DecodeValue(EncodeValue(v) + tail) == Some((v, tail))
    decreases v, 0
  {
    if v.Array? {
      var body := EncodeItems(v.items) + tail;
      assert EncodeValue(v) + tail == Head(4, |v.items|) + body;
      HeadRoundTrip(4, |v.items|, body);
      ItemsRoundTrip(v.items, tail);
    } else if v.Map? {
      var body := EncodeEntries(v.entries) + tail;
      assert EncodeValue(v) + tail == Head(5, |v.entries|) + body;
      HeadRoundTrip(5, |v.entries|, body);
      EntriesRoundTrip(v.entries, tail);
    } else {
      LeafRoundTrip(v, tail);
    }
  }

  lemma {:induction false} ItemsRoundTrip(vs: seq<Value>, tail: Octets)
    requires |EncodeItems(vs)| < MAX_LEN
    ensures DecodeItems(EncodeItems(vs) + tail, |vs|) == Some((vs, tail))
    decreases vs, 0
  {
    if vs == [] {
      assert [] + tail == tail;
    } else {
      var rest := EncodeItems(vs[1..]) + tail;
      assert EncodeItems(vs) + tail == EncodeValue(vs[0]) + rest;
      ValueRoundTrip(vs[0], rest);
      ItemsRoundTrip(vs[1..], tail);
      assert vs == [vs[0]] + vs[1..];
    }
  }

  lemma {:induction false} EntriesRoundTrip(es: seq<Entry>, tail: Octets)
    requires |EncodeEntries(es)| < MAX_LEN
    ensures DecodeEntries(EncodeEntries(es) + tail, |es|) == Some((es, tail))
    decreases es, 0
  {
    if es == [] {
      assert [] + tail == tail;
    } else {
      var rest := EncodeEntries(es[1..]) + tail;
      assert EncodeEntries(es) + tail == EncodeValue(es[0].key) + (EncodeValue(es[0].val) + rest);
      EntryRoundTrip(es[0], rest);
      EntriesRoundTrip(es[1..], tail);
      assert es == [Entry(es[0].key, es[0].val)] + es[1..];
    }
  }

  lemma {:induction false} EntryRoundTrip(e: Entry, tail: Octets)
    requires |EncodeEntry(e)| < MAX_LEN
    ensures DecodeValue(EncodeValue(e.key) + (EncodeValue(e.val) + tail)) == Some((e.key, EncodeValue(e.val) + tail))
    ensures DecodeValue(EncodeValue(e.val) + tail) == Some((e.val, tail))
    decreases e, 0
  {
    ValueRoundTrip(e.key, EncodeValue(e.val) + tail);
    ValueRoundTrip(e.val, tail);
  }

  // ── Prefix freedom ────────────────────────────────────────────────────────

  lemma HeadExtends(b: Octets, more: Octets)
    requires DecodeHead(b).Some?
    ensures DecodeHead(b + more) == Some(DecodeHead(b).value.(rest := DecodeHead(b).value.rest + more))
  {
    var info := b[0] % 32;
    var width :=
      if info < 24 then 0 else if info == 24 then 1 else if info == 25 then 2 else if info == 26 then 4 else 8;
    assert (b + more)[1 + width..] == b[1 + width..] + more;
    assert (b + more)[1..1 + width] == b[1..1 + width];
  }

  /** What decodes keeps decoding, to the same item, when bytes are appended. */
  lemma {:induction false} ValueExtends(b: Octets, more: Octets)
    requires DecodeValue(b).Some?
    ensures DecodeValue(b + more) == Some((DecodeValue(b).value.0, DecodeValue(b).value.1 + more))
    decreases |b|, 0
  {
    HeadExtends(b, more);
    var h := DecodeHead(b).value;
    if h.major == 2 || h.major == 3 {
      assert (h.rest + more)[..h.arg] == h.rest[..h.arg];
      assert (h.rest + more)[h.arg..] == h.rest[h.arg..] + more;
    } else if h.major == 4 {
      ItemsExtend(h.rest, h.arg, more);
    } else if h.major == 5 {
      EntriesExtend(h.rest, h.arg, more);
    }
  }

  lemma {:induction false} ItemsExtend(b: Octets, n: nat, more: Octets)
    requires DecodeItems(b, n).Some?
    ensures DecodeItems(b + more, n) == Some((DecodeItems(b, n).value.0, DecodeItems(b, n).value.1 + more))
    decreases |b|, 1
  {
    if n > 0 {
      ValueExtends(b, more);
      ItemsExtend(DecodeValue(b).value.1, n - 1, more);
    }
  }

  lemma {:induction false} EntriesExtend(b: Octets, n: nat, more: Octets)
    requires DecodeEntries(b, n).Some?
    ensures DecodeEntries(b + more, n) == Some((DecodeEntries(b, n).value.0, DecodeEntries(b, n).value.1 + more))
    decreases |b|, 1
  {
    hide DecodeValue;
    if n > 0 {
      ValueExtends(b, more);
      var afterKey := DecodeValue(b).value.1;
      ValueExtends(afterKey, more);
      EntriesExtend(DecodeValue(afterKey).value.1, n - 1, more);
    }
  }

  /** No encoding decodes from a proper prefix of itself. */
  lemma PrefixFree(v: Value, k: nat)
    requires |EncodeValue(v)| < MAX_LEN && k < |EncodeValue(v)|
    ensures DecodeValue(EncodeValue(v)[..k]).None?
  {
    var b := EncodeValue(v);
    var short, more := b[..k], b[k..];
    assert short + more == b + [];
    ValueRoundTrip(v, []);
    if DecodeValue(short).Some? {
      ValueExtends(short, more);
      assert false;
    }
  }

  /** Different items have different encodings. */
  lemma EncodeInjective(v: Value, w: Value)
    requires |EncodeValue(v)| < MAX_LEN
    ensures EncodeValue(v) == EncodeValue(w) ==> v == w
  {
    if EncodeValue(v) == EncodeValue(w) {
      ValueRoundTrip(v, []);
      ValueRoundTrip(w, []);
    }
  }
}
