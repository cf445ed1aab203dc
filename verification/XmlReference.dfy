/**
 Numeric character references, as the two loops of Parser_getChar read them
 (ixmlparser.c; section 4.1 of XML 1.0).
 */
module XmlReference {
  import opened Utf8

  /** HEX_NUMBERS and DEC_NUMBERS */
  predicate IsDigit(c: char, hex: bool) {
    '0' <= c <= '9' || (hex && ('A' <= c <= 'F' || 'a' <= c <= 'f'))
  }

  function DigitValue(c: char): (v: int)
    requires IsDigit(c, true)
    ensures 0 <= v < 16 && (c <= '9' ==> v < 10)
  {
    if c <= '9' then c as int - '0' as int
    else if c <= 'F' then c as int - 'A' as int + 10
    else c as int - 'a' as int + 10
  }

  function Base(hex: bool): int {
    if hex then 16 else 10
  }

  /** How many digits `r` starts with. */
  function Digits(r: string, hex: bool): (n: nat)
    ensures n <= |r| && (forall i | 0 <= i < n :: IsDigit(r[i], hex)) && (n < |r| ==> !IsDigit(r[n], hex))
  {
    if r == "" || !IsDigit(r[0], hex) then 0 else 1 + Digits(r[1..], hex)
  }

  predicate AllDigits(s: string, hex: bool) {
    forall i | 0 <= i < |s| :: IsDigit(s[i], hex)
  }

  /** An int of 32 bits in two's complement. */
  function Wrap(x: int): int {
    (x + 0x8000_0000) % 0x1_0000_0000 - 0x8000_0000
  }

  /** What the loop makes of these digits, in an int. */
  function Sum(digits: string, hex: bool): int
    requires AllDigits(digits, hex)
  {
    if digits == "" then 0
    else Wrap(Sum(digits[..|digits| - 1], hex) * Base(hex) + DigitValue(digits[|digits| - 1]))
  }

  /** The number that they denote. */
  function Value(digits: string, hex: bool): nat
    requires AllDigits(digits, hex)
  {
    if digits == "" then 0
    else Value(digits[..|digits| - 1], hex) * Base(hex) + DigitValue(digits[|digits| - 1])
  }

  /** The int holds the number modulo 2^32, however many digits there are. */
  lemma {:induction false} SumIsWrapped(digits: string, hex: bool)
    requires AllDigits(digits, hex)
    ensures Sum(digits, hex) == Wrap(Value(digits, hex))
  {
    if digits != "" {
      var before := digits[..|digits| - 1];
      SumIsWrapped(before, hex);
      WrapStep(Value(before, hex), Base(hex), DigitValue(digits[|digits| - 1]));
    }
  }

  lemma WrapStep(x: int, base: int, digit: int)
    requires base == 10 || base == 16
    ensures Wrap(Wrap(x) * base + digit) == Wrap(x * base + digit)
  {
    var q := (x + 0x8000_0000) / 0x1_0000_0000;
    assert x == Wrap(x) + q * 0x1_0000_0000;
    assert x * base + digit == Wrap(x) * base + digit + (q * base) * 0x1_0000_0000;
    WrapMultiple(Wrap(x) * base + digit, q * base);
  }

  lemma WrapMultiple(x: int, q: int)
    ensures Wrap(x + q * 0x1_0000_0000) == Wrap(x)
  {
  }

  /**
   The reference at the start of `r`, its digits beginning at `start`: the code
   and the length with the semicolon, or a code of -1.
   */
  function Reference(r: string, start: nat, hex: bool): (d: Decoded)
    requires start <= |r|
    ensures d.code > 0 ==> start < d.len <= |r| && IsXmlChar(d.code)
  {
    var end := start + Digits(r[start..], hex);
    if end < |r| && r[end] == ';' && IsXmlChar(Sum(r[start..end], hex)) then Decoded(Sum(r[start..end], hex), end + 1)
    else Decoded(-1, 0)
  }

  // ----- the loops -----

  method SumDigits(r: string, start: nat, hex: bool) returns (sum: int, pnum: nat)
    requires start <= |r|
    ensures pnum == start + Digits(r[start..], hex) && pnum <= |r|
    ensures AllDigits(r[start..pnum], hex) && sum == Sum(r[start..pnum], hex)
  {
    hide Sum, Digits, Wrap, DigitValue, IsDigit;
    sum, pnum := 0, start;
    NoDigits(r, start, hex);
    while pnum < |r| && IsDigit(r[pnum], hex)
      invariant start <= pnum <= |r| && start + Digits(r[start..], hex) == pnum + Digits(r[pnum..], hex)
      invariant AllDigits(r[start..pnum], hex) && sum == Sum(r[start..pnum], hex)
    {
      OneMoreDigit(r, start, pnum, hex);
      OneDigit(r[pnum], hex);
      sum := Wrap(sum * Base(hex) + DigitValue(r[pnum]));
      pnum := pnum + 1;
    }
    NoMoreDigits(r, pnum, hex);
  }

  lemma NoDigits(r: string, start: nat, hex: bool)
    requires start <= |r|
    ensures r[start..start] == "" && Sum("", hex) == 0
  {
  }

  lemma NoMoreDigits(r: string, p: nat, hex: bool)
    requires p <= |r| && (p < |r| ==> !IsDigit(r[p], hex))
    ensures Digits(r[p..], hex) == 0
  {
  }

  lemma OneDigit(c: char, hex: bool)
    requires IsDigit(c, hex)
    ensures IsDigit(c, true)
  {
  }

  lemma OneMoreDigit(r: string, start: nat, p: nat, hex: bool)
    requires start <= p < |r| && IsDigit(r[p], hex) && AllDigits(r[start..p], hex)
    ensures Digits(r[p..], hex) == 1 + Digits(r[p + 1..], hex)
    ensures AllDigits(r[start..p + 1], hex)
    ensures Sum(r[start..p + 1], hex) == Wrap(Sum(r[start..p], hex) * Base(hex) + DigitValue(r[p]))
  {
    hide Wrap, DigitValue, IsDigit;
    assert r[p..][1..] == r[p + 1..];
    assert r[start..p + 1][..p - start] == r[start..p];
  }

  method ReadReference(r: string, start: nat, hex: bool) returns (d: Decoded)
    requires start <= |r|
    ensures d == Reference(r, start, hex)
  {
    hide Sum, Digits, IsDigit;
    var sum, pnum := SumDigits(r, start, hex);
    if pnum == |r| || r[pnum] != ';' || !IsXmlChar(sum) {
      return Decoded(-1, 0);
    }
    d := Decoded(sum, pnum + 1);
  }

  // ----- writing references -----

  /** The digit of value `v`. */
  function Digit(v: nat): (c: char)
    requires v < 16
    ensures IsDigit(c, v >= 10) && IsDigit(c, true) && DigitValue(c) == v
  {
    if v < 10 then v as char + '0' else (v - 10) as char + 'A'
  }

  /** The digits of `c`, without leading zeros. */
  function Numeral(c: nat, hex: bool): (s: string)
    ensures AllDigits(s, hex)
  {
    if c == 0 then ""
    else Numeral(c / Base(hex), hex) + [Digit(c % Base(hex))]
  }

  lemma {:induction false} ValueOfNumeral(c: nat, hex: bool)
    ensures Value(Numeral(c, hex), hex) == c
  {
    if c > 0 {
      var s, before := Numeral(c, hex), Numeral(c / Base(hex), hex);
      ValueOfNumeral(c / Base(hex), hex);
      assert s[..|s| - 1] == before;
    }
  }

  lemma {:induction false} DigitsOf(s: string, after: string, hex: bool)
    requires AllDigits(s, hex) && (after == "" || !IsDigit(after[0], hex))
    ensures Digits(s + after, hex) == |s|
  {
    if s == "" {
      assert s + after == after;
    } else {
      assert (s + after)[1..] == s[1..] + after;
      DigitsOf(s[1..], after, hex);
    }
  }

  /** Digits that denote an XML character are read as that character. */
  lemma ReferenceIsRead(mark: string, digits: string, hex: bool, after: string)
    requires AllDigits(digits, hex) && IsXmlChar(Value(digits, hex))
    ensures Reference(mark + digits + ";" + after, |mark|, hex) == Decoded(Value(digits, hex), |mark| + |digits| + 1)
  {
    hide Digits, Sum, Value;
    var r := mark + digits + ";" + after;
    assert r[|mark|..] == digits + (";" + after);
    DigitsOf(digits, ";" + after, hex);
    assert r[|mark|..|mark| + |digits|] == digits;
    SumIsWrapped(digits, hex);
  }
}
