/**
 The two character-coding functions of the XML parser: a code point is written
 as one to six octets (section 2 of RFC 2279) and read back.

 A C string is modelled as a `string` whose characters are bytes; reading at or
 beyond the end yields the terminating NUL.  Shifts and masks of non-negative
 integers are written as division, remainder and addition.
 */
module Utf8 {

  /** The byte at offset `i` of the NUL-terminated string `s`. */
  function At(s: string, i: nat): int {
    if i < |s| then s[i] as int else 0
  }

  /** Parser_isXmlChar: the Char production of section 2.2 of XML 1.0. */
  predicate IsXmlChar(c: int) {
    c == 0x9 || c == 0xA || c == 0xD || 0x20 <= c <= 0xD7FF || 0xE000 <= c <= 0xFFFD || 0x10000 <= c <= 0x10FFFF
  }

  /** A continuation octet 10xxxxxx. */
  predicate IsCont(b: int) {
    0x80 <= b <= 0xBF
  }

  /** A code point and the number of bytes it was read from. */
  datatype Decoded = Decoded(code: int, len: nat)

  /** Parser_intToUTF8: the octets of `c`, empty when `c` cannot be encoded. */
  function IntToUtf8(c: int): string {
    if c < 0 then ""
    else if c <= 127 then [c as char]
    else if c <= 0x7FF then [(0xC0 + c / 0x40) as char, Tail(c)]
    else if c <= 0xFFFF then [(0xE0 + c / 0x1000) as char, Tail(c / 0x40), Tail(c)]
    else if c <= 0x1FFFFF then [(0xF0 + c / 0x40000) as char, Tail(c / 0x1000), Tail(c / 0x40), Tail(c)]
    else if c <= 0x3FFFFFF then
      [(0xF8 + c / 0x1000000) as char, Tail(c / 0x40000), Tail(c / 0x1000), Tail(c / 0x40), Tail(c)]
    else if c <= 0x7FFFFFFF then
      [(0xFC + c / 0x40000000) as char, Tail(c / 0x1000000), Tail(c / 0x40000), Tail(c / 0x1000), Tail(c / 0x40), Tail(c)]
    else ""
  }

  /** The continuation octet that carries the low six bits of `c`. */
  function Tail(c: int): char
    requires 0 <= c
  {
    (0x80 + c % 0x40) as char
  }

  /** The six bits carried by a continuation octet. */
  function Bits(s: string, i: nat): int {
    At(s, i) - 0x80
  }

  /**
   Parser_UTF8ToInt.  `errorChar` is the relaxed-mode replacement character:
   zero (the default) means that a bad sequence is an error of length zero.
   */
  function Utf8ToInt(s: string, errorChar: int): Decoded {
    var c := At(s, 0);
    if c <= 127 then
      Decoded(c, 1)
    else if 0xC0 <= c <= 0xDF && IsCont(At(s, 1)) then
      Decoded((c - 0xC0) * 0x40 + Bits(s, 1), 2)
    else if 0xE0 <= c <= 0xEF && IsCont(At(s, 1)) && IsCont(At(s, 2)) then
      Decoded((c - 0xE0) * 0x1000 + Bits(s, 1) * 0x40 + Bits(s, 2), 3)
    else if 0xF0 <= c <= 0xF7 && IsCont(At(s, 1)) && IsCont(At(s, 2)) && IsCont(At(s, 3)) then
      Decoded((c - 0xF0) * 0x40000 + Bits(s, 1) * 0x1000 + Bits(s, 2) * 0x40 + Bits(s, 3), 4)
    else if 0xF8 <= c <= 0xFB && IsCont(At(s, 1)) && IsCont(At(s, 2)) && IsCont(At(s, 3)) && IsCont(At(s, 4)) then
      Decoded((c - 0xF8) * 0x1000000 + Bits(s, 1) * 0x40000 + Bits(s, 2) * 0x1000 + Bits(s, 3) * 0x40 + Bits(s, 4), 5)
    else if 0xFC <= c <= 0xFD && IsCont(At(s, 1)) && IsCont(At(s, 2)) && IsCont(At(s, 3)) && IsCont(At(s, 4)) && IsCont(At(s, 5)) then
      Decoded((c - 0xFC) * 0x40000000 + Bits(s, 1) * 0x1000000 + Bits(s, 2) * 0x40000 + Bits(s, 3) * 0x1000
              + Bits(s, 4) * 0x40 + Bits(s, 5), 6)
    else if errorChar != 0 then
      Decoded(errorChar, 1)
    else
      Decoded(-1, 0)
  }

  /** True when the bytes at the start of `s` are a complete UTF-8 sequence. */
  predicate StartsSequence(s: string) {
    Utf8ToInt(s, 0).len > 0
  }

  /** A complete sequence reads the same in strict and in relaxed mode, and lies inside `s` unless it is the NUL. */
  lemma SequenceInside(s: string, errorChar: int)
    requires StartsSequence(s)
    ensures Utf8ToInt(s, errorChar) == Utf8ToInt(s, 0)
    ensures 0 <= Utf8ToInt(s, 0).code <= 0x7FFFFFFF
    ensures Utf8ToInt(s, 0).len <= |s| || (s == "" && Utf8ToInt(s, 0) == Decoded(0, 1))
  {
  }

  /** The number of octets of the shortest form of `c` (section 2 of RFC 2279). */
  function ShortestLength(c: int): nat {
    if c <= 0x7F then 1 else if c <= 0x7FF then 2 else if c <= 0xFFFF then 3
    else if c <= 0x1FFFFF then 4 else if c <= 0x3FFFFFF then 5 else 6
  }

  /** The base-64 digits of `c`, read most significant first, add up to `c`. */
  lemma Digits(c: int)
    requires 0 <= c <= 0x7FFFFFFF
    ensures c == (c / 0x40) * 0x40 + c % 0x40
    ensures c / 0x40 == (c / 0x1000) * 0x40 + c / 0x40 % 0x40
    ensures c / 0x1000 == (c / 0x40000) * 0x40 + c / 0x1000 % 0x40
    ensures c / 0x40000 == (c / 0x1000000) * 0x40 + c / 0x40000 % 0x40
    ensures c / 0x1000000 == (c / 0x40000000) * 0x40 + c / 0x1000000 % 0x40
  {
    assert c / 0x40 / 0x40 == c / 0x1000;
    assert c / 0x1000 / 0x40 == c / 0x40000;
    assert c / 0x40000 / 0x40 == c / 0x1000000;
    assert c / 0x1000000 / 0x40 == c / 0x40000000;
  }

  /** Decoding undoes encoding for every code point, whatever follows and in either mode. */
  lemma DecodeOfEncode(c: int, after: string, errorChar: int)
    requires 0 <= c <= 0x7FFFFFFF
    ensures |IntToUtf8(c)| == ShortestLength(c)
    ensures Utf8ToInt(IntToUtf8(c) + after, errorChar) == Decoded(c, ShortestLength(c))
  {
    if c > 0x1FFFFF {
      DecodeLong(c, after, errorChar);
    } else {
      var e := IntToUtf8(c);
      var s := e + after;
      assert At(s, 0) == e[0] as int;
      if c > 0x7F {
        Digits(c);
        assert At(s, 1) == e[1] as int;
      }
      if c > 0x7FF {
        assert At(s, 2) == e[2] as int;
      }
      if c > 0xFFFF {
        assert At(s, 3) == e[3] as int;
      }
    }
  }

  lemma DecodeLong(c: int, after: string, errorChar: int)
    requires 0x1FFFFF < c <= 0x7FFFFFFF
    ensures |IntToUtf8(c)| == ShortestLength(c)
    ensures Utf8ToInt(IntToUtf8(c) + after, errorChar) == Decoded(c, ShortestLength(c))
  {
    var e := IntToUtf8(c);
    var s := e + after;
    if c <= 0x3FFFFFF {
      assert At(s, 0) == 0xF8 + c / 0x1000000;
      assert At(s, 1) == 0x80 + c / 0x40000 % 0x40;
      assert At(s, 2) == 0x80 + c / 0x1000 % 0x40;
      assert At(s, 3) == 0x80 + c / 0x40 % 0x40;
      assert At(s, 4) == 0x80 + c % 0x40;
      DecodeFive(c, s, errorChar);
    } else {
      assert At(s, 0) == 0xFC + c / 0x40000000;
      assert At(s, 1) == 0x80 + c / 0x1000000 % 0x40;
      assert At(s, 2) == 0x80 + c / 0x40000 % 0x40;
      assert At(s, 3) == 0x80 + c / 0x1000 % 0x40;
      assert At(s, 4) == 0x80 + c / 0x40 % 0x40;
      assert At(s, 5) == 0x80 + c % 0x40;
      DecodeSix(c, s, errorChar);
    }
  }

  lemma DecodeFive(c: int, s: string, errorChar: int)
    requires 0x1FFFFF < c <= 0x3FFFFFF
    requires At(s, 0) == 0xF8 + c / 0x1000000 && At(s, 1) == 0x80 + c / 0x40000 % 0x40
    requires At(s, 2) == 0x80 + c / 0x1000 % 0x40 && At(s, 3) == 0x80 + c / 0x40 % 0x40 && At(s, 4) == 0x80 + c % 0x40
    ensures Utf8ToInt(s, errorChar) == Decoded(c, 5)
  {
    hide At;
    Digits(c);
  }

  lemma DecodeSix(c: int, s: string, errorChar: int)
    requires 0x3FFFFFF < c <= 0x7FFFFFFF
    requires At(s, 0) == 0xFC + c / 0x40000000 && At(s, 1) == 0x80 + c / 0x1000000 % 0x40
    requires At(s, 2) == 0x80 + c / 0x40000 % 0x40 && At(s, 3) == 0x80 + c / 0x1000 % 0x40
    requires At(s, 4) == 0x80 + c / 0x40 % 0x40 && At(s, 5) == 0x80 + c % 0x40
    ensures Utf8ToInt(s, errorChar) == Decoded(c, 6)
  {
    hide At;
    Digits(c);
  }

  /** Encoding undoes decoding exactly on the sequences in shortest form. */
  lemma EncodeOfDecode(s: string)
    requires StartsSequence(s) && s != ""
    ensures var d := Utf8ToInt(s, 0);
            d.len <= |s| && (IntToUtf8(d.code) == s[..d.len] <==> d.len == ShortestLength(d.code))
  {
    SequenceInside(s, 0);
    var d := Utf8ToInt(s, 0);
    if d.len == ShortestLength(d.code) {
      ShortestForm(s);
    } else {
      DecodeOfEncode(d.code, "", 0);
    }
  }

  lemma ShortestForm(s: string)
    requires StartsSequence(s) && s != ""
    requires var d := Utf8ToInt(s, 0); d.len == ShortestLength(d.code)
    ensures var d := Utf8ToInt(s, 0);
            d.len <= |s| && IntToUtf8(d.code) == s[..d.len]
  {
    SequenceInside(s, 0);
    var d := Utf8ToInt(s, 0);
    var e := IntToUtf8(d.code);
    DecodeOfEncode(d.code, "", 0);
    assert e + "" == e;
    SameBytes(s, e);
  }

  /** Two sequences of the same length that decode to the same code point are the same bytes. */
  lemma SameBytes(s: string, t: string)
    requires StartsSequence(s) && StartsSequence(t) && s != "" && t != ""
    requires Utf8ToInt(s, 0) == Utf8ToInt(t, 0)
    requires |t| == Utf8ToInt(t, 0).len
    ensures |t| <= |s| && s[..|t|] == t
  {
    hide Utf8ToInt, StartsSequence, IsCont, Horner, Bits;
    SequenceInside(s, 0);
    var n := |t|;
    if n == 1 {
      OneByte(s);
      OneByte(t);
    } else {
      HornerIsCode(s);
      HornerIsCode(t);
      SameDigits(s, t, n, n - 1);
      forall i | 0 <= i < n ensures s[i] == t[i] {
        assert At(s, i) == At(t, i);
      }
    }
  }

  lemma OneByte(s: string)
    requires StartsSequence(s) && s != "" && Utf8ToInt(s, 0).len == 1
    ensures s[0] as int == Utf8ToInt(s, 0).code
  {
  }

  /** The value of the first `k + 1` octets, the lead octet taken whole. */
  function Horner(s: string, k: nat): int {
    if k == 0 then At(s, 0) else Horner(s, k - 1) * 0x40 + Bits(s, k)
  }

  /** The code of a longer sequence is its Horner value less that of the lead marker. */
  lemma HornerIsCode(s: string)
    requires StartsSequence(s) && Utf8ToInt(s, 0).len >= 2
    ensures var d := Utf8ToInt(s, 0);
            Horner(s, d.len - 1) == d.code + (if d.len == 2 then 0xC0 * 0x40 else if d.len == 3 then 0xE0 * 0x1000
              else if d.len == 4 then 0xF0 * 0x40000 else if d.len == 5 then 0xF8 * 0x1000000 else 0xFC * 0x40000000)
    ensures forall i | 1 <= i < Utf8ToInt(s, 0).len :: IsCont(At(s, i))
  {
    var d := Utf8ToInt(s, 0);
    assert Horner(s, 1) == At(s, 0) * 0x40 + Bits(s, 1);
    if d.len >= 3 {
      assert Horner(s, 2) == Horner(s, 1) * 0x40 + Bits(s, 2);
      if d.len >= 4 {
        assert Horner(s, 3) == Horner(s, 2) * 0x40 + Bits(s, 3);
        if d.len >= 5 {
          assert Horner(s, 4) == Horner(s, 3) * 0x40 + Bits(s, 4);
          if d.len >= 6 {
            assert Horner(s, 5) == Horner(s, 4) * 0x40 + Bits(s, 5);
          }
        }
      }
    }
  }

  lemma {:induction false} SameDigits(s: string, t: string, n: nat, k: nat)
    requires k < n
    requires forall i | 1 <= i < n :: IsCont(At(s, i)) && IsCont(At(t, i))
    requires Horner(s, k) == Horner(t, k)
    ensures At(s, 0) == At(t, 0)
    ensures forall i | 1 <= i <= k :: At(s, i) == At(t, i)
  {
    if k > 0 {
      assert IsCont(At(s, k)) && IsCont(At(t, k));
      SameDigits(s, t, n, k - 1);
    }
  }
}
