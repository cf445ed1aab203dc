/**
 Character data: escaping on output (copy_with_escape in ixml.c) and reading
 back on input (Parser_getChar and Parser_copyToken in ixmlparser.c).
 */
module XmlText {
  import opened Utf8
  import opened XmlReference
  import opened Membufs

  // ----- output -----

  /** What copy_with_escape writes for one byte. */
  function EscapeChar(c: char): string {
    match c
    case '<' => "&lt;"
    case '>' => "&gt;"
    case '&' => "&amp;"
    case '\'' => "&apos;"
    case '\"' => "&quot;"
    case _ => [c]
  }

  function Escape(s: string): string {
    if s == "" then "" else EscapeChar(s[0]) + Escape(s[1..])
  }

  lemma {:induction false} EscapeConcat(s: string, t: string)
    ensures Escape(s + t) == Escape(s) + Escape(t)
  {
    if s == "" {
      assert s + t == t;
    } else {
      assert (s + t)[1..] == s[1..] + t;
      EscapeConcat(s[1..], t);
    }
  }

  /** No byte of the output can be taken for markup or for the end of an attribute value. */
  lemma {:induction false} EscapeHidesMarkup(s: string)
    ensures forall c | c in Escape(s) :: c != '<' && c != '>' && c != '\"' && c != '\''
  {
    if s != "" {
      EscapeHidesMarkup(s[1..]);
    }
  }

  /** The switch in copy_with_escape. */
  method AppendEscaped(buf: Membuf, c: char)
    requires buf.Valid()
    modifies buf, buf.buf
    ensures buf.Valid() && (buf.buf == old(buf.buf) || fresh(buf.buf))
    ensures buf.Contents() == old(buf.Contents()) + EscapeChar(c)
  {
    match c {
      case '<' => buf.AppendStr("&lt;");
      case '>' => buf.AppendStr("&gt;");
      case '&' => buf.AppendStr("&amp;");
      case '\'' => buf.AppendStr("&apos;");
      case '\"' => buf.AppendStr("&quot;");
      case _ => buf.Append(c);
    }
  }

  method CopyWithEscape(buf: Membuf, p: string)
    requires buf.Valid()
    modifies buf, buf.buf
    ensures buf.Valid() && (buf.buf == old(buf.buf) || fresh(buf.buf))
    ensures buf.Contents() == old(buf.Contents()) + Escape(p)
  {
    hide *;
    EscapeNothing();
    assert p[..0] == "";
    for i := 0 to |p|
      invariant buf.Valid() && (buf.buf == old(buf.buf) || fresh(buf.buf))
      invariant buf.Contents() == old(buf.Contents()) + Escape(p[..i])
    {
      AppendEscaped(buf, p[i]);
      EscapeSnoc(p, i);
    }
    assert p[..|p|] == p;
  }

  lemma EscapeNothing()
    ensures Escape("") == ""
  {
  }

  lemma EscapeSnoc(p: string, i: nat)
    requires i < |p|
    ensures Escape(p[..i + 1]) == Escape(p[..i]) + EscapeChar(p[i])
  {
    EscapeConcat(p[..i], [p[i]]);
    assert p[..i + 1] == p[..i] + [p[i]];
    assert Escape([p[i]]) == EscapeChar(p[i]) + Escape("");
  }

  // ----- input -----

  function Lower(c: char): char {
    if 'A' <= c <= 'Z' then c - 'A' + 'a' else c
  }

  /** strncasecmp(r, key, strlen(key)) == 0 */
  predicate StartsIgnoringCase(r: string, key: string) {
    |key| <= |r| && forall i | 0 <= i < |key| :: Lower(r[i]) == Lower(key[i])
  }

  /** Parser_setErrorChar: zero is strict mode, any other value the relaxed-mode replacement. */
  type ErrorChar = e: int | -128 <= e <= 127

  /** The label fail_entity: an error, or in relaxed mode the ampersand itself. */
  function Unresolved(errorChar: ErrorChar): Decoded {
    if errorChar != 0 then Decoded('&' as int, 1) else Decoded(-1, 0)
  }

  function OrUnresolved(d: Decoded, errorChar: ErrorChar): Decoded {
    if d.code > 0 then d else Unresolved(errorChar)
  }

  /**
   Parser_getChar: the next character and its length in bytes; a code that is
   not positive is an error.
   */
  function GetChar(r: string, errorChar: ErrorChar): (d: Decoded)
    requires r != ""
    ensures d.code > 0 ==> 0 < d.len <= |r|
    ensures d.code > 0 && d.len == 1 ==> d.code <= 127
  {
    if r[0] != '&' then
      if 0 < At(r, 0) < 128 && IsXmlChar(At(r, 0)) then Decoded(At(r, 0), 1)
      else
        var d := Utf8ToInt(r, errorChar);
        if IsXmlChar(d.code) then d else Decoded(if errorChar != 0 then errorChar else -1, d.len)
    else if StartsIgnoringCase(r, "&quot;") then Decoded('\"' as int, 6)
    else if StartsIgnoringCase(r, "&lt;") then Decoded('<' as int, 4)
    else if StartsIgnoringCase(r, "&gt;") then Decoded('>' as int, 4)
    else if StartsIgnoringCase(r, "&apos;") then Decoded('\'' as int, 6)
    else if StartsIgnoringCase(r, "&amp;") then Decoded('&' as int, 5)
    else if StartsIgnoringCase(r, "&#x") then OrUnresolved(Reference(r, 3, true), errorChar)
    else if StartsIgnoringCase(r, "&#") then OrUnresolved(Reference(r, 2, false), errorChar)
    else Unresolved(errorChar)
  }

  method ReadChar(r: string, errorChar: ErrorChar) returns (d: Decoded)
    requires r != ""
    ensures d == GetChar(r, errorChar)
  {
    hide Utf8ToInt, Reference;
    if r[0] == '&' && !StartsIgnoringCase(r, "&quot;") && !StartsIgnoringCase(r, "&lt;") && !StartsIgnoringCase(r, "&gt;")
       && !StartsIgnoringCase(r, "&apos;") && !StartsIgnoringCase(r, "&amp;") && StartsIgnoringCase(r, "&#") {
      var hex := StartsIgnoringCase(r, "&#x");
      d := ReadReference(r, if hex then 3 else 2, hex);
      if d.code <= 0 {
        d := Unresolved(errorChar);
      }
    } else {
      d := GetChar(r, errorChar);
    }
  }

  /** A numeric reference to an XML character, in decimal or hexadecimal digits, is read as that character. */
  lemma NumericReferenceIsRead(digits: string, hex: bool, after: string, errorChar: ErrorChar)
    requires AllDigits(digits, hex) && IsXmlChar(Value(digits, hex))
    ensures var mark := if hex then "&#x" else "&#";
            GetChar(mark + digits + ";" + after, errorChar) == Decoded(Value(digits, hex), |mark| + |digits| + 1)
  {
    hide Reference, Value, Utf8ToInt;
    var mark := if hex then "&#x" else "&#";
    var r := mark + digits + ";" + after;
    ReferenceIsRead(mark, digits, hex, after);
    assert r[0] == '&' && r[1] == '#';
    assert Lower('#') == '#' && Lower("&quot;"[1]) == 'q' && Lower("&lt;"[1]) == 'l' && Lower("&gt;"[1]) == 'g';
    assert Lower("&apos;"[1]) == 'a' && Lower("&amp;"[1]) == 'a';
    if hex {
      assert r[2] == 'x';
    } else {
      assert r[2] == (digits + ";")[0];
      assert Lower(r[2]) != 'x';
    }
  }

  /** So every XML character can be written as a reference, in either base. */
  lemma ReferenceToAny(c: nat, hex: bool, after: string, errorChar: ErrorChar)
    requires IsXmlChar(c)
    ensures var mark := if hex then "&#x" else "&#";
            GetChar(mark + Numeral(c, hex) + ";" + after, errorChar) == Decoded(c, |mark| + |Numeral(c, hex)| + 1)
  {
    hide GetChar, Numeral, Value;
    ValueOfNumeral(c, hex);
    NumericReferenceIsRead(Numeral(c, hex), hex, after, errorChar);
  }

  /** The bytes that Parser_copyToken appends for a decoded character. */
  function CopiedBytes(d: Decoded): string
    requires d.code > 0 && (d.len == 1 ==> d.code <= 127)
  {
    if d.len == 1 then [d.code as char] else IntToUtf8(d.code)
  }

  /** The outcome of Parser_copyToken and what it has appended to the token buffer, also when it fails. */
  datatype Copied = Copied(ok: bool, text: string)

  /** The loop of Parser_copyToken over the `n` bytes that remain; the last character may overrun them. */
  function CopyLoop(r: string, n: int, errorChar: ErrorChar): Copied
    requires n <= |r|
    decreases n
  {
    if n <= 0 then Copied(n == 0, "")
    else
      var d := GetChar(r, errorChar);
      if d.code <= 0 then Copied(false, "")
      else
        var rest := CopyLoop(r[d.len..], n - d.len, errorChar);
        Copied(rest.ok, CopiedBytes(d) + rest.text)
  }

  function CopyToken(r: string, n: nat, errorChar: ErrorChar): Copied
    requires n <= |r|
  {
    if n == 0 then Copied(false, "") else CopyLoop(r, n, errorChar)
  }

  /** One turn of the loop of Parser_copyToken. */
  lemma CopyLoopStep(r: string, n: int, errorChar: ErrorChar)
    requires 0 < n <= |r|
    ensures var d := GetChar(r, errorChar);
            if d.code <= 0 then CopyLoop(r, n, errorChar) == Copied(false, "")
            else
              d.len <= |r| &&
              var rest := CopyLoop(r[d.len..], n - d.len, errorChar);
              CopyLoop(r, n, errorChar) == Copied(rest.ok, CopiedBytes(d) + rest.text)
  {
  }

  lemma CopyLoopEnd(r: string, n: int, errorChar: ErrorChar)
    requires n <= 0
    ensures CopyLoop(r, n, errorChar) == Copied(n == 0, "")
  {
  }

  // ----- reading back what was written -----

  /** A string of XML characters, each in its shortest UTF-8 form. */
  predicate WellFormed(s: string) {
    s == "" ||
    var d := Utf8ToInt(s, 0);
    && 0 < d.len <= |s|
    && IsXmlChar(d.code)
    && d.len == ShortestLength(d.code)
    && WellFormed(s[d.len..])
  }

  /** The UTF-8 form of a sequence of code points. */
  function Encode(codes: seq<int>): string {
    if codes == [] then "" else IntToUtf8(codes[0]) + Encode(codes[1..])
  }

  /** The well-formed strings are exactly the encodings of sequences of XML characters. */
  lemma {:induction false} EncodeIsWellFormed(codes: seq<int>)
    requires forall c | c in codes :: IsXmlChar(c)
    ensures WellFormed(Encode(codes))
  {
    if codes != [] {
      assert codes[0] in codes;
      DecodeOfEncode(codes[0], Encode(codes[1..]), 0);
      assert Encode(codes)[|IntToUtf8(codes[0])|..] == Encode(codes[1..]);
      EncodeIsWellFormed(codes[1..]);
    }
  }

  lemma {:induction false} WellFormedIsEncoding(s: string) returns (codes: seq<int>)
    requires WellFormed(s)
    ensures s == Encode(codes) && forall c | c in codes :: IsXmlChar(c)
  {
    if s == "" {
      codes := [];
    } else {
      WellFormedHead(s);
      hide Utf8ToInt, IntToUtf8, IsXmlChar;
      var d := Utf8ToInt(s, 0);
      var rest := WellFormedIsEncoding(s[d.len..]);
      codes := [d.code] + rest;
      assert codes[1..] == rest;
      assert s == s[..d.len] + s[d.len..];
    }
  }

  /** The first character of a non-empty well-formed string. */
  lemma WellFormedHead(s: string)
    requires s != "" && WellFormed(s)
    ensures var d := Utf8ToInt(s, 0);
            && 0 < d.len <= |s| && IsXmlChar(d.code) && d.code > 0 && WellFormed(s[d.len..])
            && IntToUtf8(d.code) == s[..d.len]
            && (d.len == 1 ==> d.code == s[0] as int && d.code <= 127)
            && (d.len > 1 ==> d.code > 127)
            && (s[0] == '&' ==> d.len == 1)
  {
    EncodeOfDecode(s);
  }

  /** Reading the escaped form of one character gives that character and its full length. */
  lemma GetEscaped(s: string, n: nat, after: string, errorChar: ErrorChar)
    requires s != "" && WellFormed(s) && n == Utf8ToInt(s, 0).len
    ensures n <= |s|
    ensures var e := Escape(s[..n]); var d := GetChar(e + after, errorChar);
            e != "" && d.code > 0 && d.len == |e| && CopiedBytes(d) == s[..n]
  {
    WellFormedHead(s);
    var code := Utf8ToInt(s, 0).code;
    if n == 1 {
      GetEscapedAscii(s[0], after, errorChar);
      hide *;
      assert s[..1] == [s[0]];
      EscapeSingle(s[0]);
    } else {
      HighBytes(s, n);
      GetMultibyte(code, after, errorChar);
      hide *;
    }
  }

  lemma EscapeSingle(c: char)
    ensures Escape([c]) == EscapeChar(c) != ""
  {
    assert Escape([c]) == EscapeChar(c) + Escape("");
  }

  lemma GetMultibyte(code: int, after: string, errorChar: ErrorChar)
    requires IsXmlChar(code) && code > 127
    ensures GetChar(IntToUtf8(code) + after, errorChar) == Decoded(code, |IntToUtf8(code)|)
    ensures |IntToUtf8(code)| > 1
  {
    DecodeOfEncode(code, after, errorChar);
    LeadIsHigh(code);
    hide Utf8ToInt, IntToUtf8;
  }

  lemma LeadIsHigh(code: int)
    requires 127 < code <= 0x10FFFF
    ensures IntToUtf8(code) != "" && IntToUtf8(code)[0] as int > 127
  {
  }

  lemma GetEscapedAscii(c: char, after: string, errorChar: ErrorChar)
    requires 0 < c as int < 128 && IsXmlChar(c as int)
    ensures GetChar(EscapeChar(c) + after, errorChar) == Decoded(c as int, |EscapeChar(c)|)
    ensures |EscapeChar(c)| == 1 ==> EscapeChar(c) == [c]
  {
    hide Utf8ToInt;
    var r := EscapeChar(c) + after;
    if c in {'<', '>', '&', '\'', '\"'} {
      assert r[1] == EscapeChar(c)[1] && r[2] == EscapeChar(c)[2];
      assert Lower(r[1]) == r[1] && Lower(r[2]) == r[2];
      assert Lower("&quot;"[1]) == 'q' && Lower("&lt;"[1]) == 'l' && Lower("&gt;"[1]) == 'g';
      assert Lower("&apos;"[1]) == 'a' && Lower("&apos;"[2]) == 'p';
      assert forall i | 0 <= i < |EscapeChar(c)| :: r[i] == EscapeChar(c)[i];
    }
  }

  /** The bytes of a longer sequence are all above ASCII, so escaping leaves them alone. */
  lemma HighBytes(s: string, n: nat)
    requires n == Utf8ToInt(s, 0).len && 2 <= n <= |s|
    ensures Escape(s[..n]) == s[..n]
  {
    assert forall i | 0 <= i < n :: s[i] as int >= 0x80;
    EscapeNone(s[..n]);
  }

  lemma {:induction false} EscapeNone(s: string)
    requires forall i | 0 <= i < |s| :: s[i] as int >= 0x80
    ensures Escape(s) == s
  {
    if s != "" {
      EscapeNone(s[1..]);
    }
  }

  /** Copying a token undoes escaping, in either mode and whatever follows. */
  lemma {:induction false} CopyUndoesEscape(s: string, after: string, errorChar: ErrorChar)
    requires WellFormed(s)
    ensures CopyLoop(Escape(s) + after, |Escape(s)|, errorChar) == Copied(true, s)
    decreases |s|
  {
    hide GetChar, Utf8ToInt, IsXmlChar, CopyLoop, Escape;
    EscapeNothing();
    if s == "" {
      CopyLoopEnd(after, 0, errorChar);
      assert "" + after == after;
    } else {
      var n := Utf8ToInt(s, 0).len;
      var head, tail := s[..n], s[n..];
      assert s == head + tail;
      EscapeConcat(head, tail);
      var r := Escape(s) + after;
      assert r == Escape(head) + (Escape(tail) + after);
      GetEscaped(s, n, Escape(tail) + after, errorChar);
      assert r[|Escape(head)|..] == Escape(tail) + after;
      CopyLoopStep(r, |Escape(s)|, errorChar);
      CopyUndoesEscape(tail, after, errorChar);
    }
  }

  /** Parser_copyToken undoes copy_with_escape on every non-empty well-formed string. */
  lemma CopyTokenUndoesEscape(s: string, after: string, errorChar: ErrorChar)
    requires s != "" && WellFormed(s)
    ensures Escape(s) != "" && CopyToken(Escape(s) + after, |Escape(s)|, errorChar) == Copied(true, s)
  {
    CopyUndoesEscape(s, after, errorChar);
  }

  // ----- and nothing else -----

  /** A sequence is at least as long as the shortest form of its code point. */
  lemma NoShorterThanShortest(s: string)
    requires StartsSequence(s)
    ensures ShortestLength(Utf8ToInt(s, 0).code) <= Utf8ToInt(s, 0).len
  {
  }

  /** Bytes above ASCII in the output stand for themselves. */
  lemma {:induction false} HighPrefix(s: string, n: nat)
    requires n <= |Escape(s)| && forall i | 0 <= i < n :: Escape(s)[i] as int >= 0x80
    ensures n <= |s| && s[..n] == Escape(s)[..n] && Escape(s[n..]) == Escape(s)[n..]
  {
    hide Escape;
    if n == 0 {
      assert s[0..] == s && Escape(s)[0..] == Escape(s);
    } else {
      var e := Escape(s);
      NonEmptySource(s);
      EscapeHead(s);
      HighIsItself(s[0], Escape(s[1..]));
      assert e == [s[0]] + Escape(s[1..]);
      forall i | 0 <= i < n - 1 ensures Escape(s[1..])[i] as int >= 0x80 {
        assert Escape(s[1..])[i] == e[i + 1];
      }
      HighPrefix(s[1..], n - 1);
      assert s[n..] == s[1..][n - 1..] && e[n..] == Escape(s[1..])[n - 1..];
      assert s[..n] == [s[0]] + s[1..][..n - 1] && e[..n] == [s[0]] + Escape(s[1..])[..n - 1];
    }
  }

  lemma NonEmptySource(s: string)
    requires Escape(s) != ""
    ensures s != ""
  {
  }

  lemma HighIsItself(c: char, after: string)
    requires (EscapeChar(c) + after)[0] as int >= 0x80
    ensures EscapeChar(c) == [c]
  {
  }

  /** The same sequence starts two strings that share its bytes. */
  lemma SameSequence(r: string, s: string, n: nat)
    requires StartsSequence(r) && n == Utf8ToInt(r, 0).len && 2 <= n <= |s| && n <= |r| && s[..n] == r[..n]
    ensures Utf8ToInt(s, 0) == Utf8ToInt(r, 0)
  {
    hide IsXmlChar;
    forall i | 0 <= i < n ensures At(s, i) == At(r, i) {
      assert s[i] == s[..n][i] && r[i] == r[..n][i];
    }
  }

  /** The bytes that a strict reading accepts are those of sequences of XML characters. */
  lemma AcceptedHighBytes(r: string)
    requires r != "" && r[0] as int >= 0x80 && GetChar(r, 0).code > 0
    ensures var d := GetChar(r, 0);
            && d == Utf8ToInt(r, 0) && StartsSequence(r) && IsXmlChar(d.code) && 2 <= d.len <= |r|
            && forall i | 0 <= i < d.len :: r[i] as int >= 0x80
  {
  }

  lemma ControlsAreRefused(r: string)
    requires r != "" && r[0] as int < 0x80 && !IsXmlChar(r[0] as int) && r[0] != '&'
    ensures GetChar(r, 0).code <= 0
  {
  }

  lemma AsciiHead(s: string)
    requires s != "" && 0 < s[0] as int < 0x80 && IsXmlChar(s[0] as int)
    ensures WellFormed(s[1..]) ==> WellFormed(s)
  {
  }

  lemma SequenceHead(s: string)
    requires StartsSequence(s) && s != ""
    requires var d := Utf8ToInt(s, 0); d.len <= |s| && IsXmlChar(d.code) && d.len == ShortestLength(d.code) && WellFormed(s[d.len..])
    ensures WellFormed(s)
  {
  }

  /** In strict mode a copy is never longer than the source, and only a well-formed source is copied faithfully. */
  lemma {:induction false} FaithfulCopyIsWellFormed(s: string, after: string)
    ensures var c := CopyLoop(Escape(s) + after, |Escape(s)|, 0);
            c.ok ==> |c.text| <= |s| && (c.text == s ==> WellFormed(s))
    decreases |s|
  {
    hide GetChar, Utf8ToInt, IsXmlChar, CopyLoop, Escape, WellFormed, StartsSequence, ShortestLength, IntToUtf8;
    EscapeNothing();
    if s == "" {
      CopyLoopEnd(Escape(s) + after, 0, 0);
      EmptyIsWellFormed();
    } else {
      var r := Escape(s) + after;
      EscapeHead(s);
      CopyLoopStep(r, |Escape(s)|, 0);
      var d := GetChar(r, 0);
      if d.code > 0 {
        if s[0] as int < 0x80 {
          assert r == EscapeChar(s[0]) + (Escape(s[1..]) + after);
          FaithfulAscii(s, after);
        } else {
          FaithfulSequence(s, after);
        }
      }
    }
  }

  lemma EmptyIsWellFormed()
    ensures WellFormed("")
  {
  }

  lemma EscapeHead(s: string)
    requires s != ""
    ensures Escape(s) == EscapeChar(s[0]) + Escape(s[1..]) && Escape(s) != ""
  {
  }

  lemma FaithfulAscii(s: string, after: string)
    requires s != "" && s[0] as int < 0x80 && GetChar(EscapeChar(s[0]) + (Escape(s[1..]) + after), 0).code > 0
    ensures var c := CopyLoop(Escape(s) + after, |Escape(s)|, 0);
            c.ok ==> |c.text| <= |s| && (c.text == s ==> WellFormed(s))
    decreases |s|, 0
  {
    hide GetChar, Utf8ToInt, CopyLoop, Escape, WellFormed, StartsSequence, ShortestLength, IntToUtf8;
    var r := Escape(s) + after;
    EscapeHead(s);
    assert r == EscapeChar(s[0]) + (Escape(s[1..]) + after);
    if !IsXmlChar(s[0] as int) {
      ControlsAreRefused(r);
    } else {
      GetEscapedAscii(s[0], Escape(s[1..]) + after, 0);
      CopyLoopStep(r, |Escape(s)|, 0);
      assert r[|EscapeChar(s[0])|..] == Escape(s[1..]) + after;
      FaithfulCopyIsWellFormed(s[1..], after);
      AsciiHead(s);
      CopiedAscii(s[0]);
      assert s == [s[0]] + s[1..];
    }
  }

  lemma CopiedAscii(c: char)
    requires 0 < c as int < 0x80
    ensures CopiedBytes(Decoded(c as int, |EscapeChar(c)|)) == [c]
  {
  }

  lemma FaithfulSequence(s: string, after: string)
    requires s != "" && s[0] as int >= 0x80 && GetChar(Escape(s) + after, 0).code > 0 && Escape(s) != ""
    ensures var c := CopyLoop(Escape(s) + after, |Escape(s)|, 0);
            c.ok ==> |c.text| <= |s| && (c.text == s ==> WellFormed(s))
    decreases |s|, 0
  {
    hide GetChar, Utf8ToInt, IsXmlChar, CopyLoop, Escape, WellFormed, ShortestLength, IntToUtf8;
    var e, r := Escape(s), Escape(s) + after;
    EscapeHead(s);
    assert r[0] == s[0];
    AcceptedHighBytes(r);
    CopyLoopStep(r, |e|, 0);
    var d := GetChar(r, 0);
    var n := d.len;
    if n > |e| {
      CopyLoopEnd(r[n..], |e| - n, 0);
    } else {
      forall i | 0 <= i < n ensures e[i] as int >= 0x80 {
        assert e[i] == r[i];
      }
      HighPrefix(s, n);
      assert r[..n] == e[..n] && r[n..] == e[n..] + after;
      SameSequence(r, s, n);
      NoShorterThanShortest(r);
      SequenceInside(r, 0);
      DecodeOfEncode(d.code, "", 0);
      FaithfulCopyIsWellFormed(s[n..], after);
      SequenceStep(s, n, d, CopyLoop(Escape(s[n..]) + after, |Escape(s[n..])|, 0).text);
    }
  }

  lemma SequenceStep(s: string, n: nat, d: Decoded, rest: string)
    requires s != "" && d == Utf8ToInt(s, 0) && n == d.len && 2 <= n <= |s| && IsXmlChar(d.code) && d.code > 0
    requires |IntToUtf8(d.code)| == ShortestLength(d.code) <= n && StartsSequence(s)
    ensures CopiedBytes(d) == IntToUtf8(d.code)
    ensures |rest| <= |s[n..]| && (rest == s[n..] ==> WellFormed(s[n..])) && IntToUtf8(d.code) + rest == s ==> WellFormed(s)
  {
    hide Utf8ToInt, IsXmlChar, WellFormed, StartsSequence, ShortestLength, IntToUtf8;
    if |rest| <= |s[n..]| && (rest == s[n..] ==> WellFormed(s[n..])) && IntToUtf8(d.code) + rest == s {
      assert |IntToUtf8(d.code)| == n;
      assert rest == s[n..];
      SequenceHead(s);
    }
  }

  /** In strict mode Parser_copyToken undoes copy_with_escape exactly on the non-empty well-formed strings. */
  lemma CopyTokenUndoesEscapeIff(s: string, after: string)
    ensures CopyToken(Escape(s) + after, |Escape(s)|, 0) == Copied(true, s) <==> s != "" && WellFormed(s)
  {
    hide CopyLoop, Escape, WellFormed;
    if s == "" {
      EscapeNothing();
    } else {
      EscapeHead(s);
      FaithfulCopyIsWellFormed(s, after);
      if WellFormed(s) {
        CopyUndoesEscape(s, after, 0);
      }
    }
  }
}
