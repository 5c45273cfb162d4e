/** Decimal printing, Rust's integer parsing, and separators in text. */
module Decimal {
  import opened Prelude

  predicate IsDigit(c: char) {
    '0' <= c <= '9'
  }

  function Digit(d: nat): (c: char)
    requires d < 10
    ensures IsDigit(c)
  {
    '0' + d as char
  }

  lemma DigitIs(d: nat)
    requires d < 10
    ensures Digit(d) == "0123456789"[d]
  {
  }

  function DigitValue(c: char): (d: nat)
    requires IsDigit(c)
    ensures d < 10
  {
    (c - '0') as int
  }

  /** Display of an unsigned integer. */
  function Print(n: nat): (s: string)
    ensures s != []
    ensures forall i :: 0 <= i < |s| ==> IsDigit(s[i])
  {
    if n < 10 then [Digit(n)] else Print(n / 10) + [Digit(n % 10)]
  }

  lemma PrintSmall()
    ensures Print(0) == "0" && Print(1) == "1" && Print(2) == "2" && Print(255) == "255"
  {
    assert Print(2) == [Digit(2)];
    assert Print(25) == [Digit(2)] + [Digit(5)];
    assert Print(255) == Print(25) + [Digit(5)];
  }

  /** No number but zero is printed with a leading zero. */
  lemma {:induction false} PrintHasNoZeros(n: nat)
    ensures n > 0 ==> Print(n)[0] != '0'
  {
    if n >= 10 {
      PrintHasNoZeros(n / 10);
    }
  }

  predicate AllDigits(s: string) {
    forall i :: 0 <= i < |s| ==> IsDigit(s[i])
  }

  function Value(s: string): (n: nat)
    requires AllDigits(s)
  {
    if s == [] then 0 else 10 * Value(s[..|s| - 1]) + DigitValue(s[|s| - 1])
  }

  lemma {:induction false} ValuePrint(n: nat)
    ensures Value(Print(n)) == n
  {
    if n < 10 {
      assert [Digit(n)][..0] == [];
    } else {
      ValuePrint(n / 10);
      assert (Print(n / 10) + [Digit(n % 10)])[..|Print(n / 10)|] == Print(n / 10);
    }
  }

  /** `str::parse` for an unsigned type with the given maximum: an optional `+`, then digits. */
  function ParseUnsigned(s: string, max: nat): Option<nat> {
    var digits := if s != [] && s[0] == '+' then s[1..] else s;
    if digits == [] || !AllDigits(digits) || Value(digits) > max then None else Some(Value(digits))
  }

  /** A plain number is read by its digits, with a plus sign or without, and refused above the maximum. */
  lemma ParseMeans(digits: string, max: nat)
    requires digits != [] && AllDigits(digits)
    ensures ParseUnsigned(digits, max) == if Value(digits) <= max then Some(Value(digits)) else None
    ensures ParseUnsigned("+" + digits, max) == ParseUnsigned(digits, max)
  {
    assert ("+" + digits)[1..] == digits;
  }

  /** Nothing else is read: no empty text, no lone sign and no other character. */
  lemma ParseRefuses(s: string, max: nat)
    ensures ParseUnsigned(s, max).Some? ==>
              exists digits :: digits != [] && AllDigits(digits) && (s == digits || s == "+" + digits)
  {
    if ParseUnsigned(s, max).Some? && s[0] == '+' {
      assert s == "+" + s[1..];
    }
  }

  const U16_MAX := 0xFFFF
  const U64_MAX := 0xFFFF_FFFF_FFFF_FFFF
  const I32_MAX := 0x7FFF_FFFF

  type U16 = x: int | 0 <= x <= U16_MAX
  type I32 = x: int | -I32_MAX - 1 <= x <= I32_MAX

  /** `str::parse::<i32>`. */
  function ParseI32(s: string): Option<I32> {
    if s != [] && s[0] == '-' then
      var digits := s[1..];
      if digits == [] || !AllDigits(digits) || Value(digits) > I32_MAX + 1 then None else Some(0 - Value(digits))
    else
      match ParseUnsigned(s, I32_MAX)
      case Some(n) => Some(n)
      case None => None
  }

  /** Signed numbers are read within 32 bits on either side. */
  lemma ParseI32Means(digits: string)
    requires digits != [] && AllDigits(digits)
    ensures ParseI32("-" + digits).Some? <==> Value(digits) <= 0x8000_0000
    ensures ParseI32("-" + digits).Some? ==> ParseI32("-" + digits).value == 0 - Value(digits)
    ensures ParseI32(digits).Some? <==> Value(digits) <= 0x7FFF_FFFF
    ensures ParseI32(digits).Some? ==> ParseI32(digits).value == Value(digits)
  {
    assert ("-" + digits)[1..] == digits;
    ParseMeans(digits, I32_MAX);
  }

  function PrintI32(i: I32): string {
    if i < 0 then "-" + Print(0 - i) else Print(i)
  }

  lemma PrintI32Means(n: nat)
    ensures n <= I32_MAX ==> PrintI32(n) == Print(n)
    ensures 0 < n <= I32_MAX + 1 ==> PrintI32(0 - n) == "-" + Print(n)
  {
  }

  lemma UnsignedRoundTrip(n: nat, max: nat)
    requires n <= max
    ensures ParseUnsigned(Print(n), max) == Some(n)
  {
    ValuePrint(n);
  }

  lemma I32RoundTrip(i: I32)
    ensures ParseI32(PrintI32(i)) == Some(i)
  {
    hide Value;
    if i < 0 {
      ValuePrint(0 - i);
      assert PrintI32(i)[1..] == Print(0 - i);
    } else {
      UnsignedRoundTrip(i, I32_MAX);
    }
  }

  // ── Separators ────────────────────────────────────────────────────────────

  /** The place of the first `c`. */
  function IndexOf(s: string, c: char): (i: nat)
    requires c in s
    ensures i < |s| && s[i] == c && c !in s[..i]
  {
    if s[0] == c then 0 else 1 + IndexOf(s[1..], c)
  }

  lemma {:induction false} IndexOfSeparator(a: string, c: char, x: string)
    requires c !in a
    ensures c in a + [c] + x && IndexOf(a + [c] + x, c) == |a|
  {
    var s := a + [c] + x;
    assert s[|a|] == c;
    if a != [] {
      assert s[0] == a[0] && s[1..] == a[1..] + [c] + x;
      IndexOfSeparator(a[1..], c, x);
    }
  }

  /** Text without the separator in front of it can be read back. */
  lemma SplitAtSeparator(a: string, b: string, c: char, x: string, y: string)
    requires c !in a && c !in b && a + [c] + x == b + [c] + y
    ensures a == b && x == y
  {
    IndexOfSeparator(a, c, x);
    IndexOfSeparator(b, c, y);
    var s := a + [c] + x;
    assert s[..|a|] == a && s[..|b|] == b;
    assert s[|a| + 1..] == x && s[|b| + 1..] == y;
  }
}
