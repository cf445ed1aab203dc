/**
 One node at a time: what Parser_getNextNode makes of each piece of the text
 that the printer writes.
 */
module XmlRead {
  import opened Utf8
  import opened XmlNames
  import opened XmlText
  import opened XmlScan
  import opened XmlTokens

  /** White space as section 2.3 of XML 1.0 has it. */
  predicate AllWs(s: string) {
    forall i | 0 <= i < |s| :: s[i] in " \t\r\n"
  }

  lemma {:induction false} SkipAllWs(ws: string, after: string)
    requires AllWs(ws) && (after == "" || !IsWs(after[0]))
    ensures SkipWs(ws + after) == after
  {
    if ws == "" {
      assert ws + after == after;
    } else {
      assert (ws + after)[1..] == ws[1..] + after;
      SkipAllWs(ws[1..], after);
    }
  }

  // ----- tags -----

  /** A start tag without attributes. */
  lemma ReadBareStartTag(c: Cursor, env: Env, name: string, after: string)
    requires c.state == ELEMENT && IsName(name) && c.rest == "<" + name + ">" + after
    ensures GetNextNode(c, env) == Got(StartTag(name), Cursor(after, CONTENT, name))
  {
    hide GetNextToken, SkipWs, IsNameChar, InTables;
    var tail := ">" + after;
    NameFirst(name);
    assert c.rest[1] == name[0];
    StartTagToken(c.rest, env.errorChar);
    assert c.rest[1..] == "" + name + tail;
    EndsNameAt(tail);
    NameToken("", name, tail, env.errorChar);
    CharToken(tail, env.errorChar);
    assert tail[1..] == after && [tail[0]] == ">";
  }

  lemma NameFirst(name: string)
    requires IsName(name)
    ensures name != "" && IsNameChar(name[0] as int, false)
    ensures name[0] != '<' && name[0] != '>' && name[0] != '/' && !IsWs(name[0])
    ensures name != ">" && name != "/>" && name != "<" && name != "</"
  {
  }

  lemma EndsNameAt(after: string)
    requires after != "" && after[0] in " \t\r\n/>="
    ensures EndsName(after)
  {
  }

  /** A start tag that goes on with an attribute. */
  lemma ReadStartTagWithAttrs(c: Cursor, env: Env, name: string, attr: string, after: string)
    requires c.state == ELEMENT && IsName(name) && IsName(attr)
    requires c.rest == "<" + name + (" " + attr + "=" + after)
    ensures GetNextNode(c, env) == Got(StartTag(name), Cursor(" " + attr + "=" + after, ATTRIBUTE, name))
  {
    hide GetNextToken, SkipWs, IsNameChar, InTables;
    var tail := " " + attr + "=" + after;
    NameFirst(name);
    NameFirst(attr);
    assert c.rest[1] == name[0];
    StartTagToken(c.rest, env.errorChar);
    assert c.rest[1..] == "" + name + tail;
    EndsNameAt(tail);
    NameToken("", name, tail, env.errorChar);
    assert tail == " " + attr + ("=" + after);
    EndsNameAt("=" + after);
    NameToken(" ", attr, "=" + after, env.errorChar);
  }

  /** An end tag. */
  lemma ReadEndTag(c: Cursor, env: Env, name: string, after: string)
    requires c.state == ELEMENT && IsName(name) && c.rest == "</" + name + ">" + after
    ensures GetNextNode(c, env) == Got(EndTag(name), c.(rest := after))
  {
    hide GetNextToken, SkipWs, IsNameChar, InTables;
    var tail := ">" + after;
    EndTagToken(c.rest, env.errorChar);
    assert c.rest[2..] == "" + name + tail;
    EndsNameAt(tail);
    NameToken("", name, tail, env.errorChar);
    SkipNoWs(tail);
    CharToken(tail, env.errorChar);
    assert tail[1..] == after && [tail[0]] == ">";
  }

  lemma SkipNoWs(r: string)
    requires r == "" || !IsWs(r[0])
    ensures SkipWs(r) == r
  {
  }

  // ----- attributes -----

  /** The text after an attribute: the end of the tag, or one more attribute. */
  datatype Follow = TagEnd(after: string) | MoreAttrs(attr: string, after: string)

  function FollowText(f: Follow): string {
    match f
    case TagEnd(after) => ">" + after
    case MoreAttrs(attr, after) => " " + attr + "=" + after
  }

  function FollowCursor(f: Follow, lastElem: string): Cursor {
    match f
    case TagEnd(after) => Cursor(after, CONTENT, lastElem)
    case MoreAttrs(_, _) => Cursor(FollowText(f), ATTRIBUTE, lastElem)
  }

  lemma ReadAttribute(c: Cursor, env: Env, name: string, value: string, f: Follow)
    requires c.state == ATTRIBUTE && env.inElement && env.namespaceOk(FollowText(f), name, value)
    requires IsName(name) && WellFormed(value) && (f.MoreAttrs? ==> IsName(f.attr))
    requires c.rest == " " + name + ("=\"" + Escape(value) + "\"" + FollowText(f))
    ensures GetNextNode(c, env) == Got(Attribute(name, value), FollowCursor(f, c.lastElem))
  {
    hide GetNextToken, SkipWs, IsNameChar, Utf8ToInt, Escape, WellFormed, FollowText, FollowCursor, ProcessAttributeValue, InTables;
    var body := Escape(value) + "\"" + FollowText(f);
    var quoted := "\"" + body;
    var tail := "=" + quoted;
    assert c.rest == " " + name + tail;
    SkipBlank(" ", name, tail);
    EndsNameAt(tail);
    assert name + tail == "" + name + tail;
    NameToken("", name, tail, env.errorChar);
    NameFirst(name);
    NameCode(name, env.errorChar);
    CharToken(tail, env.errorChar);
    assert tail[1..] == quoted && [tail[0]] == "=";
    CharToken(quoted, env.errorChar);
    assert quoted[1..] == body && [quoted[0]] == "\"";
    ReadValue(c.(rest := body), env, name, value, f);
  }

  lemma NameCode(name: string, errorChar: ErrorChar)
    requires IsName(name)
    ensures IsNameChar(Utf8ToInt(name, errorChar).code, false)
  {
  }

  lemma ReadValue(c: Cursor, env: Env, name: string, value: string, f: Follow)
    requires c.state == ATTRIBUTE && env.namespaceOk(FollowText(f), name, value)
    requires WellFormed(value) && (f.MoreAttrs? ==> IsName(f.attr))
    requires c.rest == Escape(value) + "\"" + FollowText(f)
    ensures ProcessAttributeValue(name, "\"", c, env) == Got(Attribute(name, value), FollowCursor(f, c.lastElem))
  {
    hide GetNextToken, Find, NoLessThan, CopyToken, Escape, WellFormed, FollowText;
    var raw := Escape(value);
    EscapeHidesMarkup(value);
    assert c.rest == raw + ("\"" + FollowText(f));
    FindQuote(raw, FollowText(f));
    EscapedHasNoLessThan(raw);
    assert c.rest[..|raw|] == raw;
    assert c.rest[|raw| + 1..] == FollowText(f);
    CopyValue(value, "\"" + FollowText(f), env.errorChar);
    LookAhead(f, env.errorChar);
  }

  lemma CopyValue(value: string, after: string, errorChar: ErrorChar)
    requires WellFormed(value)
    ensures value == "" <==> Escape(value) == ""
    ensures value != "" ==> CopyToken(Escape(value) + after, |Escape(value)|, errorChar) == Copied(true, value)
  {
    if value != "" {
      CopyTokenUndoesEscape(value, after, errorChar);
    }
  }

  lemma LookAhead(f: Follow, errorChar: ErrorChar)
    requires f.MoreAttrs? ==> IsName(f.attr)
    ensures var t := GetNextToken(FollowText(f), errorChar);
            t.len > 0 && match f
                         case TagEnd(after) => t.text == ">" && t.rest == after
                         case MoreAttrs(attr, _) => t.text == attr != ">" && attr != "<" && attr != "/>"
  {
    hide GetNextToken, IsNameChar;
    var r := FollowText(f);
    match f {
      case TagEnd(after) =>
        CharToken(r, errorChar);
        assert r[1..] == after && [r[0]] == ">";
      case MoreAttrs(attr, after) =>
        assert r == " " + attr + ("=" + after);
        EndsNameAt("=" + after);
        NameFirst(attr);
        NameToken(" ", attr, "=" + after, errorChar);
    }
  }

  lemma {:induction false} FindQuote(raw: string, after: string)
    requires forall c | c in raw :: c != '\"'
    ensures Find(raw + ("\"" + after), "\"") == |raw|
  {
    var r := raw + ("\"" + after);
    if raw == "" {
      assert r[0] == '\"' && "\"" <= r;
    } else {
      assert r[0] == raw[0] && raw[0] in raw;
      assert !("\"" <= r);
      assert r[1..] == raw[1..] + ("\"" + after);
      assert forall c | c in raw[1..] :: c in raw;
      FindQuote(raw[1..], after);
    }
  }

  lemma {:induction false} EscapedHasNoLessThan(raw: string)
    requires forall c | c in raw :: c != '<'
    ensures NoLessThan(raw)
    decreases |raw|
  {
    if raw != "" {
      assert raw[0] in raw;
      var rest := if raw[0] == '&' && |raw| > 1 then raw[2..] else raw[1..];
      assert forall c | c in rest :: c in raw;
      EscapedHasNoLessThan(rest);
    }
  }

  // ----- content -----

  /** White space before a tag is skipped, and the tag is left to be read. */
  lemma ReadToTag(c: Cursor, env: Env, ws: string, tag: string)
    requires c.state == CONTENT && AllWs(ws) && AtTag(tag) && !("<![CDATA[" <= tag) && c.rest == ws + tag
    ensures GetNextNode(c, env) == Got(Nothing, c.(rest := tag, state := ELEMENT))
  {
    hide SkipWs;
    SkipAllWs(ws, tag);
  }

  /** White space up to the end of the file. */
  lemma ReadToEnd(c: Cursor, env: Env)
    requires c.state == CONTENT && AllWs(c.rest) && c.rest != ""
    ensures GetNextNode(c, env) == Got(Nothing, c.(rest := ""))
  {
    hide SkipWs;
    SkipAllWs(c.rest, "");
    assert c.rest + "" == c.rest;
  }

  /** A section body that the scanner can delimit: bytes of ASCII that are XML characters, without `]]>`. */
  predicate IsCData(value: string) {
    && value != ""
    && (forall i | 0 <= i < |value| :: value[i] as int <= 127 && IsXmlChar(value[i] as int))
    && (forall i | 0 <= i <= |value| :: !("]]>" <= value[i..]))
  }

  lemma {:induction false} CDataEnds(value: string, after: string)
    requires value == "" || IsCData(value)
    ensures CDataLength(value + "]]>" + after) == |value|
  {
    var r := value + "]]>" + after;
    if value == "" {
      assert "]]>" <= r;
    } else {
      assert r[0] == value[0] && r[1..] == value[1..] + "]]>" + after;
      NotClosedYet(value, after);
      if |value| > 1 {
        forall i | 0 <= i <= |value[1..]| ensures !("]]>" <= value[1..][i..]) {
          assert value[1..][i..] == value[i + 1..];
        }
        assert forall i | 0 <= i < |value[1..]| :: value[1..][i] == value[i + 1];
      }
      CDataEnds(value[1..], after);
    }
  }

  lemma NotClosedYet(value: string, after: string)
    requires IsCData(value)
    ensures !("]]>" <= value + "]]>" + after)
  {
    var r := value + "]]>" + after;
    if |value| >= 3 {
      assert value[0..] == value && r[..3] == value[..3];
    } else {
      assert r[2] == ']';
    }
  }

  lemma ReadCData(c: Cursor, env: Env, ws: string, value: string, after: string)
    requires c.state == CONTENT && AllWs(ws) && IsCData(value)
    requires c.rest == ws + ("<![CDATA[" + value + "]]>" + after)
    ensures GetNextNode(c, env) == Got(CData(value), c.(rest := after))
  {
    hide SkipWs, CDataLength, IsCData;
    var r := "<![CDATA[" + value + "]]>" + after;
    SkipAllWs(ws, r);
    assert "<![CDATA[" <= r;
    CDataBody(r, value, after);
  }

  lemma CDataBody(r: string, value: string, after: string)
    requires IsCData(value) && r == "<![CDATA[" + value + "]]>" + after
    ensures "<![CDATA[" <= r && ProcessCDSect(r) == Got(CData(value), Cursor(after, CONTENT, ""))
  {
    hide CDataLength;
    CDataEnds(value, after);
    var body := r[9..];
    assert body == value + "]]>" + after;
    assert body[..|value|] == value && body[|value| + 3..] == after;
  }

  /** Character data that is not all white space. */
  lemma ReadText(c: Cursor, env: Env, value: string, after: string)
    requires c.state == CONTENT && WellFormed(value) && !AllWs(value) && "</" <= after
    requires c.rest == Escape(value) + after
    ensures GetNextNode(c, env) == Got(Text(value), c.(rest := after))
  {
    hide SkipWs, Escape, WellFormed, TextLength, CopyToken, AllWs;
    var raw := Escape(value);
    EscapeHidesMarkup(value);
    EscapeKeepsWs(value);
    SkipToText(raw, after);
    TextEnds(raw, after);
    NotAllWsNotEmpty(value);
    CopyTokenUndoesEscape(value, after, env.errorChar);
    assert c.rest[|raw|..] == after;
    assert after[0] == '<';
  }

  lemma NotAllWsNotEmpty(s: string)
    requires !AllWs(s)
    ensures s != ""
  {
  }

  lemma {:induction false} EscapeKeepsWs(s: string)
    ensures AllWs(Escape(s)) <==> AllWs(s)
    ensures AllWs(s) ==> Escape(s) == s
  {
    if s != "" {
      EscapeKeepsWs(s[1..]);
      var head := EscapeChar(s[0]);
      assert head != "" && (IsWs(head[0]) <==> IsWs(s[0])) && (IsWs(s[0]) ==> head == [s[0]]);
      AllWsConcat(head, Escape(s[1..]));
      AllWsConcat([s[0]], s[1..]);
      assert s == [s[0]] + s[1..];
    }
  }

  lemma AllWsConcat(s: string, t: string)
    ensures AllWs(s + t) <==> AllWs(s) && AllWs(t)
  {
    if AllWs(s + t) {
      assert forall i | 0 <= i < |s| :: s[i] == (s + t)[i];
      assert forall i | 0 <= i < |t| :: t[i] == (s + t)[|s| + i];
    }
  }

  lemma {:induction false} SkipToText(raw: string, after: string)
    requires !AllWs(raw) && forall c | c in raw :: c != '<'
    ensures var r := SkipWs(raw + after); r != "" && r[0] != '<'
  {
    var r := raw + after;
    NotAllWsNotEmpty(raw);
    assert r[0] == raw[0] && raw[0] in raw;
    if IsWs(raw[0]) {
      assert r[1..] == raw[1..] + after;
      AllWsConcat([raw[0]], raw[1..]);
      assert raw == [raw[0]] + raw[1..];
      assert forall c | c in raw[1..] :: c in raw;
      SkipToText(raw[1..], after);
    }
  }

  lemma {:induction false} TextEnds(raw: string, after: string)
    requires (forall c | c in raw :: c != '<' && c != '>') && after != "" && after[0] == '<'
    ensures TextLength(raw + after) == |raw|
  {
    var r := raw + after;
    if raw == "" {
      assert r == after;
    } else {
      assert r[0] == raw[0] && raw[0] in raw;
      NoClosingInText(raw, after);
      assert r[1..] == raw[1..] + after;
      assert forall c | c in raw[1..] :: c in raw;
      TextEnds(raw[1..], after);
    }
  }

  lemma NoClosingInText(raw: string, after: string)
    requires raw != "" && (forall c | c in raw :: c != '<' && c != '>') && after != "" && after[0] == '<'
    ensures !("]]>" <= raw + after)
  {
    var r := raw + after;
    if |raw| >= 3 {
      assert r[2] == raw[2] && raw[2] in raw;
    } else {
      assert r[|raw|] == '<';
    }
  }
}
