/**
 A grammar of documents with the spellings that the printer never uses: character
 and entity references, white space inside tags, single quotes, empty-element tags,
 comments and processing instructions.  The parser reads every document of the
 grammar as the tree that it denotes.
 */
module XmlSpelling {
  import opened Utf8
  import opened XmlNames
  import opened XmlReference
  import opened XmlText
  import opened XmlScan
  import opened XmlTokens
  import opened XmlTree
  import opened XmlMachine
  import opened XmlRead
  import opened XmlRoundTrip

  // ----- character data -----

  /** One character: itself, one of the five named entities in any letter case, or a numeric reference. */
  datatype Piece = Literal(code: int) | Named(text: string) | Numbered(digits: string, hex: bool)

  /** The name itself, or with capitals for some of its small letters. */
  predicate InAnyCase(text: string, name: string) {
    |text| == |name| && forall i | 0 <= i < |name| :: text[i] == name[i] || ('a' <= name[i] <= 'z' && text[i] as int == name[i] as int - 32)
  }

  predicate IsEntity(text: string, name: string) {
    InAnyCase(text, name)
  }

  /** A character as section 2.2 of XML 1.0 has it. */
  predicate IsChar(code: int) {
    code in {0x9, 0xA, 0xD} || 0x20 <= code < 0xD800 || 0xE000 <= code < 0xFFFE || 0x1_0000 <= code < 0x11_0000
  }

  predicate PieceOk(p: Piece) {
    match p
    case Literal(code) => IsChar(code) && code != '&' as int
    case Named(text) =>
      IsEntity(text, "&quot;") || IsEntity(text, "&lt;") || IsEntity(text, "&gt;") || IsEntity(text, "&apos;") || IsEntity(text, "&amp;")
    case Numbered(digits, hex) => AllDigits(digits, hex) && IsChar(Value(digits, hex))
  }

  function PieceText(p: Piece): string {
    match p
    case Literal(code) => IntToUtf8(code)
    case Named(text) => text
    case Numbered(digits, hex) => (if hex then "&#x" else "&#") + digits + ";"
  }

  function PieceCode(p: Piece): int
    requires PieceOk(p)
  {
    match p
    case Literal(code) => code
    case Named(text) =>
      (if IsEntity(text, "&quot;") then '\"' else if IsEntity(text, "&lt;") then '<' else if IsEntity(text, "&gt;") then '>'
       else if IsEntity(text, "&apos;") then '\'' else '&') as int
    case Numbered(digits, hex) => Value(digits, hex)
  }

  predicate AllOk(ps: seq<Piece>) {
    forall p | p in ps :: PieceOk(p)
  }

  /** What is written. */
  function Written(ps: seq<Piece>): string {
    if ps == [] then "" else PieceText(ps[0]) + Written(ps[1..])
  }

  /** What it stands for. */
  function Meant(ps: seq<Piece>): string
    requires AllOk(ps)
  {
    if ps == [] then "" else IntToUtf8(PieceCode(ps[0])) + Meant(ps[1..])
  }

  lemma PieceIsRead(p: Piece, after: string, errorChar: ErrorChar)
    requires PieceOk(p)
    ensures PieceText(p) != ""
    ensures var d := GetChar(PieceText(p) + after, errorChar);
            d.code > 0 && d.len == |PieceText(p)| && CopiedBytes(d) == IntToUtf8(PieceCode(p))
  {
    hide Reference, Utf8ToInt, Value;
    match p {
      case Literal(code) =>
        if code <= 127 {
          LiteralAscii(code, after, errorChar);
        } else {
          GetMultibyte(code, after, errorChar);
        }
      case Named(text) =>
        NamedIsRead(text, after, errorChar);
      case Numbered(digits, hex) =>
        NumericReferenceIsRead(digits, hex, after, errorChar);
        assert PieceText(p) + after == (if hex then "&#x" else "&#") + digits + ";" + after;
    }
  }

  lemma LiteralAscii(code: int, after: string, errorChar: ErrorChar)
    requires IsXmlChar(code) && code <= 127 && code != '&' as int
    ensures IntToUtf8(code) == [code as char] && GetChar([code as char] + after, errorChar) == Decoded(code, 1)
  {
    hide Reference, Utf8ToInt;
  }

  lemma AnyCaseStarts(text: string, name: string, after: string)
    requires InAnyCase(text, name) && forall i | 0 <= i < |name| :: !('A' <= name[i] <= 'Z')
    ensures StartsIgnoringCase(text + after, name)
  {
    forall i | 0 <= i < |name| ensures Lower((text + after)[i]) == Lower(name[i]) {
      assert (text + after)[i] == text[i];
    }
  }

  lemma NamedIsRead(text: string, after: string, errorChar: ErrorChar)
    requires PieceOk(Named(text))
    ensures text != "" && GetChar(text + after, errorChar) == Decoded(PieceCode(Named(text)), |text|) && |text| > 1
  {
    hide StartsIgnoringCase, Lower, Reference, Utf8ToInt, InAnyCase;
    var name := EntityName(text);
    var r := text + after;
    AnyCaseStarts(text, name, after);
    NamedFacts(text, name, after);
    forall other | other in {"&quot;", "&lt;", "&gt;", "&apos;"} && other != name ensures !StartsIgnoringCase(r, other) {
      NotQuiteThat(r, other, name);
    }
  }

  function EntityName(text: string): string {
    if IsEntity(text, "&quot;") then "&quot;" else if IsEntity(text, "&lt;") then "&lt;" else if IsEntity(text, "&gt;") then "&gt;"
    else if IsEntity(text, "&apos;") then "&apos;" else "&amp;"
  }

  lemma NamedFacts(text: string, name: string, after: string)
    requires InAnyCase(text, name) && |name| >= 4 && name[0] == '&' && 'a' <= name[1] <= 'z' && 'a' <= name[2] <= 'z'
    ensures |text| == |name| && text[0] == '&' && (text + after)[0] == '&'
    ensures Lower((text + after)[1]) == name[1] && Lower((text + after)[2]) == name[2]
  {
  }

  /** An entity is none of the others: its second or third letter differs. */
  lemma NotQuiteThat(r: string, other: string, name: string)
    requires other in {"&quot;", "&lt;", "&gt;", "&apos;"} && name in {"&quot;", "&lt;", "&gt;", "&apos;", "&amp;"}
    requires |r| >= 3 && Lower(r[1]) == name[1] && Lower(r[2]) == name[2] && other != name
    ensures !StartsIgnoringCase(r, other)
  {
    assert Lower(other[1]) == other[1] && Lower(other[2]) == other[2];
  }

  /** Copying what is written gives what it stands for, in either mode, and goes on with what follows. */
  lemma {:induction false} WrittenThenMore(ps: seq<Piece>, after: string, more: int, errorChar: ErrorChar)
    requires AllOk(ps) && more <= |after|
    ensures var rest := CopyLoop(after, more, errorChar);
            more >= 0 ==>
              CopyLoop(Written(ps) + after, |Written(ps)| + more, errorChar) == Copied(rest.ok, Meant(ps) + rest.text)
  {
    hide GetChar, CopyLoop, PieceOk, PieceText, PieceCode, IntToUtf8, CopiedBytes;
    var r := Written(ps) + after;
    if ps == [] {
      assert r == after;
    } else if more >= 0 {
      var rest := Written(ps[1..]) + after;
      assert r == PieceText(ps[0]) + rest;
      PieceIsRead(ps[0], rest, errorChar);
      CopyLoopStep(r, |Written(ps)| + more, errorChar);
      assert r[|PieceText(ps[0])|..] == rest;
      WrittenThenMore(ps[1..], after, more, errorChar);
    }
  }

  lemma WrittenIsCopied(ps: seq<Piece>, after: string, errorChar: ErrorChar)
    requires AllOk(ps)
    ensures CopyLoop(Written(ps) + after, |Written(ps)|, errorChar) == Copied(true, Meant(ps))
  {
    hide CopyLoop;
    CopyLoopEnd(after, 0, errorChar);
    WrittenThenMore(ps, after, 0, errorChar);
  }

  // ----- white space in front of tokens -----

  lemma BlankBefore(ws: string, r: string)
    requires AllWs(ws) && r != "" && r[0] != '<' && !IsWs(r[0])
    ensures SkipWs(ws + r) == r && SkipMisc(ws + r) == Scan(true, r)
  {
    SkipAllWs(ws, r);
    if ws != "" {
      assert (ws + r)[0] == ws[0] && IsWs(ws[0]);
    } else {
      assert ws + r == r;
    }
    NotMiscChar(ws + r);
  }

  /** It does not change what is read, nor where the token starts. */
  lemma BlankBeforeToken(ws: string, r: string, errorChar: ErrorChar)
    requires AllWs(ws) && r != "" && r[0] != '<' && !IsWs(r[0])
    ensures GetNextToken(ws + r, errorChar) == GetNextToken(r, errorChar)
  {
    hide SkipMisc, TokenLength, CopyToken, SkipWs;
    BlankBefore(ws, r);
    NoWs();
    BlankBefore("", r);
    assert "" + r == r;
  }

  // ----- attributes -----

  datatype SpelledAttr = SpelledAttr(before: string, name: string, beforeEq: string, afterEq: string, quote: char, value: seq<Piece>)

  predicate AttrOk(a: SpelledAttr) {
    && AllWs(a.before) && a.before != "" && AllWs(a.beforeEq) && AllWs(a.afterEq)
    && IsName(a.name) && IsPlainAttribute(a.name)
    && (a.quote == '\"' || a.quote == '\'')
    && AllOk(a.value) && forall c | c in Written(a.value) :: c != a.quote && c != '<'
  }

  /** An attribute as it is written, in front of `rest`. */
  function AttrText(a: SpelledAttr, rest: string): string {
    a.before + (a.name + (a.beforeEq + ("=" + (a.afterEq + ValueText(a, rest)))))
  }

  function ValueText(a: SpelledAttr, rest: string): string {
    [a.quote] + (Written(a.value) + ([a.quote] + rest))
  }

  function MeantAttr(a: SpelledAttr): Attr
    requires AttrOk(a)
  {
    Attr(a.name, Meant(a.value))
  }

  /** The scanner comes to an attribute value, whatever it is. */
  lemma ReachValue(c: Cursor, env: Env, before: string, name: string, beforeEq: string, afterEq: string, quote: char, tail: string)
    requires c.state == ATTRIBUTE && env.inElement && IsName(name) && (quote == '\"' || quote == '\'')
    requires AllWs(before) && AllWs(beforeEq) && AllWs(afterEq)
    requires c.rest == before + (name + (beforeEq + ("=" + (afterEq + ([quote] + tail)))))
    ensures GetNextNode(c, env) == ProcessAttributeValue(name, [quote], c.(rest := tail), env)
  {
    hide GetNextToken, SkipWs, IsNameChar, InTables, Utf8ToInt, ProcessAttribute, ProcessAttributeValue, IsName, AllWs;
    var afterName := beforeEq + ("=" + (afterEq + ([quote] + tail)));
    var named := name + afterName;
    NameFirst(name);
    assert named[0] == name[0];
    BlankBefore(before, named);
    BlankOrNot(beforeEq, "=" + (afterEq + ([quote] + tail)));
    EndsNameAt(afterName);
    assert "" + name + afterName == named;
    NameToken("", name, afterName, env.errorChar);
    ReachQuote(c.(rest := afterName), env, name, beforeEq, afterEq, quote, tail);
  }

  lemma ReachQuote(c: Cursor, env: Env, name: string, beforeEq: string, afterEq: string, quote: char, tail: string)
    requires IsName(name) && (quote == '\"' || quote == '\'') && AllWs(beforeEq) && AllWs(afterEq)
    requires c.rest == beforeEq + ("=" + (afterEq + ([quote] + tail)))
    ensures ProcessAttribute(name, c, env) == ProcessAttributeValue(name, [quote], c.(rest := tail), env)
  {
    hide GetNextToken, SkipWs, IsNameChar, ProcessAttributeValue, Utf8ToInt, IsName, AllWs;
    NameCode(name, env.errorChar);
    var value := [quote] + tail;
    var equals := "=" + (afterEq + value);
    BlankBeforeToken(beforeEq, equals, env.errorChar);
    CharToken(equals, env.errorChar);
    assert equals[1..] == afterEq + value && [equals[0]] == "=";
    BlankBeforeToken(afterEq, value, env.errorChar);
    CharToken(value, env.errorChar);
    assert value[1..] == tail && [value[0]] == [quote];
  }

  /** An attribute is read with its name and with what its value stands for; then comes the look ahead. */
  lemma ReadSpelledAttr(c: Cursor, env: Env, a: SpelledAttr, rest: string)
    requires c.state == ATTRIBUTE && env.inElement && AttrOk(a) && env.namespaceOk(rest, a.name, Meant(a.value))
    requires c.rest == AttrText(a, rest)
    ensures GetNextNode(c, env) == AttributeEnd(a.name, Meant(a.value), c.(rest := rest), env)
  {
    hide GetNextNode, ProcessAttributeValue, AttributeEnd, Written, Meant, IsName, AllOk, AllWs, AttrOk;
    AttrParts(a);
    var tail := Written(a.value) + ([a.quote] + rest);
    ReachValue(c, env, a.before, a.name, a.beforeEq, a.afterEq, a.quote, tail);
    SpelledValue(c.(rest := tail), env, a, rest);
  }

  lemma AttrParts(a: SpelledAttr)
    requires AttrOk(a)
    ensures AllWs(a.before) && a.before != "" && AllWs(a.beforeEq) && AllWs(a.afterEq) && IsName(a.name) && IsPlainAttribute(a.name)
    ensures (a.quote == '\"' || a.quote == '\'') && AllOk(a.value)
    ensures forall c | c in Written(a.value) :: c != a.quote && c != '<'
  {
  }

  /** White space, or else the text after it, ends a name. */
  lemma BlankOrNot(ws: string, r: string)
    requires AllWs(ws) && r != "" && r[0] in "/>="
    ensures ws + r != "" && (ws + r)[0] in " \t\r\n/>="
  {
    if ws != "" {
      assert IsWs(ws[0]);
    }
  }

  lemma SpelledValue(c: Cursor, env: Env, a: SpelledAttr, rest: string)
    requires AttrOk(a) && env.namespaceOk(rest, a.name, Meant(a.value))
    requires c.rest == Written(a.value) + ([a.quote] + rest)
    ensures ProcessAttributeValue(a.name, [a.quote], c, env) == AttributeEnd(a.name, Meant(a.value), c.(rest := rest), env)
  {
    hide Find, NoLessThan, CopyLoop, AttributeEnd, AttrOk, Meant, Written;
    AttrParts(a);
    var raw := Written(a.value);
    FindChar(raw, a.quote, rest);
    EscapedHasNoLessThan(raw);
    assert c.rest[..|raw|] == raw && c.rest[|raw| + 1..] == rest;
    WrittenIsCopied(a.value, [a.quote] + rest, env.errorChar);
    NothingWritten(a.value);
  }

  lemma NothingWritten(ps: seq<Piece>)
    requires AllOk(ps)
    ensures Written(ps) == "" <==> ps == []
    ensures ps == [] ==> Meant(ps) == ""
  {
    hide PieceOk;
    if ps != [] {
      PieceIsRead(ps[0], "", 0);
    }
  }

  lemma {:induction false} FindChar(raw: string, q: char, after: string)
    requires forall c | c in raw :: c != q
    ensures Find(raw + ([q] + after), [q]) == |raw|
  {
    var r := raw + ([q] + after);
    if raw == "" {
      assert r[0] == q && [q] <= r;
    } else {
      assert r[0] == raw[0] && raw[0] in raw;
      assert !([q] <= r);
      assert r[1..] == raw[1..] + ([q] + after);
      assert forall c | c in raw[1..] :: c in raw;
      FindChar(raw[1..], q, after);
    }
  }

  // ----- start tags and empty-element tags -----

  function AttrsText(attrs: seq<SpelledAttr>, rest: string): string {
    if attrs == [] then rest else AttrText(attrs[0], AttrsText(attrs[1..], rest))
  }

  predicate AttrsOk(attrs: seq<SpelledAttr>) {
    && (forall i | 0 <= i < |attrs| :: AttrOk(attrs[i]))
    && forall i, j | 0 <= i < j < |attrs| :: attrs[i].name != attrs[j].name
  }

  function MeantAttrs(attrs: seq<SpelledAttr>): (list: seq<Attr>)
    requires AttrsOk(attrs)
    ensures |list| == |attrs| && forall i | 0 <= i < |attrs| :: list[i] == MeantAttr(attrs[i])
  {
    if attrs == [] then [] else [MeantAttr(attrs[0])] + MeantAttrs(attrs[1..])
  }

  /** The end of a start tag, or of an empty-element tag. */
  function CloseText(ws: string, empty: bool, after: string): string {
    ws + ((if empty then "/>" else ">") + after)
  }

  function OpenText(name: string, attrs: seq<SpelledAttr>, ws: string, empty: bool, after: string): string {
    "<" + (name + AttrsText(attrs, CloseText(ws, empty, after)))
  }

  /** Where the cursor stands after the attributes: the two bytes of an empty-element tag are still to be read. */
  function AfterTag(empty: bool, after: string, state: State, lastElem: string): Cursor {
    if empty then Cursor("/>" + after, state, lastElem) else Cursor(after, CONTENT, lastElem)
  }

  /** The look ahead at the end of a tag. */
  lemma CloseToken(ws: string, empty: bool, after: string, errorChar: ErrorChar)
    requires AllWs(ws)
    ensures var t := GetNextToken(CloseText(ws, empty, after), errorChar);
            if empty then t == Token(2, "/>", "/>" + after, after) else t == Token(1, ">", ">" + after, after)
  {
    hide GetNextToken, AllWs;
    var r := (if empty then "/>" else ">") + after;
    BlankBeforeToken(ws, r, errorChar);
    if empty {
      SlashToken(r, errorChar);
      assert r[2..] == after;
    } else {
      CharToken(r, errorChar);
      assert r[1..] == after && [r[0]] == ">";
    }
  }

  /** And at the next attribute. */
  lemma AttrToken(a: SpelledAttr, rest: string, errorChar: ErrorChar)
    requires AttrOk(a)
    ensures var t := GetNextToken(AttrText(a, rest), errorChar);
            t.len > 0 && t.text == a.name && a.name != ">" && a.name != "<" && a.name != "/>"
    ensures AttrText(a, rest) != "" && IsWs(AttrText(a, rest)[0])
  {
    hide GetNextToken, IsName, AllOk, Written, IsNameChar;
    NameFirst(a.name);
    var afterName := a.beforeEq + ("=" + (a.afterEq + ValueText(a, rest)));
    var named := a.name + afterName;
    assert named[0] == a.name[0];
    BlankOrNot(a.beforeEq, "=" + (a.afterEq + ValueText(a, rest)));
    EndsNameAt(afterName);
    assert "" + a.name + afterName == named;
    NameToken("", a.name, afterName, errorChar);
    BlankBeforeToken(a.before, named, errorChar);
  }

  lemma {:induction false} RunSpelledAttrs(attrs: seq<SpelledAttr>, done: seq<Attr>, ws: string, empty: bool, after: string,
                                           name: string, lastElem: string, stack: seq<string>, base: seq<Frame>, config: Config)
    requires attrs != [] && stack != [] && AllWs(ws) && AttrsOk(attrs)
    requires forall i, j | 0 <= i < |done| && 0 <= j < |attrs| :: done[i].name != attrs[j].name
    ensures Run(Inside(Cursor(AttrsText(attrs, CloseText(ws, empty, after)), ATTRIBUTE, lastElem), stack,
                       base + [Frame(name, done, [])]), config)
         == Run(Inside(AfterTag(empty, after, ATTRIBUTE, lastElem), stack,
                       base + [Frame(name, done + MeantAttrs(attrs), [])]), config)
    decreases |attrs|
  {
    hide Run, GetNextNode, GetNextToken, AttributeEnd, AttrText, CloseText, AttrOk, AllWs, Meant;
    var a, rest := attrs[0], AttrsText(attrs[1..], CloseText(ws, empty, after));
    var cursor := Cursor(AttrText(a, rest), ATTRIBUTE, lastElem);
    var m := Inside(cursor, stack, base + [Frame(name, done, [])]);
    AttrIsPlain(a);
    EnvPlain(m, config, rest, a.name, Meant(a.value));
    ReadSpelledAttr(cursor, EnvOf(m, config), a, rest);
    AfterAttr(attrs, ws, empty, after, cursor.(rest := rest), EnvOf(m, config));
    var next := if |attrs| == 1 then AfterTag(empty, after, ATTRIBUTE, lastElem) else cursor.(rest := rest);
    RunAddSpelled(m, config, MeantAttr(a), next, name, done, base);
    assert MeantAttrs(attrs) == [MeantAttr(a)] + MeantAttrs(attrs[1..]);
    if |attrs| == 1 {
      assert done + MeantAttrs(attrs) == done + [MeantAttr(a)];
    } else {
      assert done + MeantAttrs(attrs) == done + [MeantAttr(a)] + MeantAttrs(attrs[1..]);
      RunSpelledAttrs(attrs[1..], done + [MeantAttr(a)], ws, empty, after, name, lastElem, stack, base, config);
    }
  }

  lemma AttrIsPlain(a: SpelledAttr)
    requires AttrOk(a)
    ensures IsPlainAttribute(a.name) && AllOk(a.value)
  {
  }

  /** The look ahead after the first of these attributes. */
  lemma AfterAttr(attrs: seq<SpelledAttr>, ws: string, empty: bool, after: string, c: Cursor, env: Env)
    requires attrs != [] && AttrsOk(attrs) && AllWs(ws) && c.state == ATTRIBUTE
    requires c.rest == AttrsText(attrs[1..], CloseText(ws, empty, after))
    ensures var a := attrs[0];
            AllOk(a.value) && AttributeEnd(a.name, Meant(a.value), c, env) ==
              Got(Attribute(a.name, Meant(a.value)), if |attrs| == 1 then AfterTag(empty, after, ATTRIBUTE, c.lastElem) else c)
  {
    hide GetNextToken, AttrText, CloseText, AttrOk, AllWs, Meant;
    AttrIsPlain(attrs[0]);
    if |attrs| == 1 {
      CloseToken(ws, empty, after, env.errorChar);
    } else {
      AttrToken(attrs[1], AttrsText(attrs[2..], CloseText(ws, empty, after)), env.errorChar);
      assert attrs[1..][1..] == attrs[2..];
    }
  }

  lemma RunAddSpelled(m: Machine, config: Config, a: Attr, cursor: Cursor, name: string, done: seq<Attr>, base: seq<Frame>)
    requires IsPlainAttribute(a.name) && forall i | 0 <= i < |done| :: done[i].name != a.name
    requires m == Inside(m.cursor, m.stack, base + [Frame(name, done, [])])
    requires GetNextNode(m.cursor, EnvOf(m, config)) == Got(Attribute(a.name, a.value), cursor)
    ensures Run(m, config) == Run(Inside(cursor, m.stack, base + [Frame(name, done + [a], [])]), config)
  {
    hide GetNextNode, Run, IsPlainAttribute;
    RunNode(m, config, Attribute(a.name, a.value), cursor);
    assert !HasAttr(done, a.name);
    assert (base + [Frame(name, done, [])])[..|base|] == base;
  }

  lemma ReadSpelledOpen(c: Cursor, env: Env, name: string, attrs: seq<SpelledAttr>, ws: string, empty: bool, after: string)
    requires c.state == ELEMENT && IsName(name) && AllWs(ws) && AttrsOk(attrs)
    requires c.rest == OpenText(name, attrs, ws, empty, after)
    ensures GetNextNode(c, env) ==
            Got(StartTag(name),
                if attrs == [] then AfterTag(empty, after, ELEMENT, name)
                else Cursor(AttrsText(attrs, CloseText(ws, empty, after)), ATTRIBUTE, name))
  {
    hide GetNextToken, SkipWs, IsNameChar, InTables, AttrText, CloseText, AttrOk, AllWs;
    var tail := AttrsText(attrs, CloseText(ws, empty, after));
    NameFirst(name);
    assert c.rest[1] == name[0];
    StartTagToken(c.rest, env.errorChar);
    assert c.rest[1..] == "" + name + tail;
    if attrs == [] {
      CloseEndsName(ws, empty, after);
      CloseToken(ws, empty, after, env.errorChar);
    } else {
      AttrToken(attrs[0], AttrsText(attrs[1..], CloseText(ws, empty, after)), env.errorChar);
      assert tail[0] in " \t\r\n/>=";
    }
    EndsNameAt(tail);
    NameToken("", name, tail, env.errorChar);
  }

  lemma CloseEndsName(ws: string, empty: bool, after: string)
    requires AllWs(ws)
    ensures var r := CloseText(ws, empty, after); r != "" && r[0] in " \t\r\n/>="
  {
    BlankOrNot(ws, (if empty then "/>" else ">") + after);
  }

  /** A start tag in any spelling. */
  lemma RunSpelledOpen(m: Machine, config: Config, name: string, attrs: seq<SpelledAttr>, ws: string, empty: bool, after: string)
    returns (state: State)
    requires m.path != [] && m.plain && !(m.hasTopLevel && m.stack == [])
    requires IsName(name) && !HasColon(name) && AttrsOk(attrs) && AllWs(ws)
    requires m.cursor.state == ELEMENT && m.cursor.rest == OpenText(name, attrs, ws, empty, after)
    ensures state != CONTENT
    ensures Run(m, config) == Run(Inside(AfterTag(empty, after, state, name), m.stack + [name],
                                         m.path + [Frame(name, MeantAttrs(attrs), [])]), config)
  {
    hide Run, GetNextNode, HasColon, IsName, AttrsText, CloseText, AttrOk, AllWs;
    ReadSpelledOpen(m.cursor, EnvOf(m, config), name, attrs, ws, empty, after);
    if attrs == [] {
      RunOpen(m, config, name, AfterTag(empty, after, ELEMENT, name));
      state := ELEMENT;
    } else {
      RunOpen(m, config, name, Cursor(AttrsText(attrs, CloseText(ws, empty, after)), ATTRIBUTE, name));
      RunSpelledAttrs(attrs, [], ws, empty, after, name, name, m.stack + [name], m.path, config);
      assert [] + MeantAttrs(attrs) == MeantAttrs(attrs);
      state := ATTRIBUTE;
    }
  }

  /** The current element is closed and becomes a child of its parent. */
  lemma CloseCurrent(m: Machine, stack: seq<string>, path: seq<Frame>, name: string, attrs: seq<Attr>, kids: seq<Tree>)
    requires path != [] && m == Inside(m.cursor, stack + [name], path + [Frame(name, attrs, kids)])
    ensures Close(m, name) == Running(Inside(m.cursor.(state := CONTENT), stack, Attach(path, [Element(name, attrs, kids)])))
  {
    assert m.stack[..|stack|] == stack;
    assert m.path[..|path| - 1] == path[..|path| - 1];
  }

  lemma ReadSlash(c: Cursor, env: Env, after: string)
    requires c.state != CONTENT && c.rest == "/>" + after && c.lastElem != ""
    ensures GetNextNode(c, env) == Got(EndTag(c.lastElem), c.(rest := after))
  {
    hide GetNextToken, SkipWs;
    SlashToken(c.rest, env.errorChar);
    assert c.rest[2..] == after;
  }

  /** An empty-element tag in any spelling is an element without children. */
  lemma RunEmptyElement(m: Machine, config: Config, name: string, attrs: seq<SpelledAttr>, ws: string, after: string)
    requires m.path != [] && m.plain && !(m.hasTopLevel && m.stack == [])
    requires IsName(name) && !HasColon(name) && AttrsOk(attrs) && AllWs(ws)
    requires m.cursor.state == ELEMENT && m.cursor.rest == OpenText(name, attrs, ws, true, after)
    ensures Run(m, config) ==
            Run(Inside(Cursor(after, CONTENT, name), m.stack, Attach(m.path, [Element(name, MeantAttrs(attrs), [])])), config)
  {
    hide Run, GetNextNode, HasColon, IsName, OpenText, AttrsOk, AllWs, MeantAttrs, Attach;
    var state := RunSpelledOpen(m, config, name, attrs, ws, true, after);
    var m1 := Inside(Cursor("/>" + after, state, name), m.stack + [name], m.path + [Frame(name, MeantAttrs(attrs), [])]);
    NameIsNotEmpty(name);
    ReadSlash(m1.cursor, EnvOf(m1, config), after);
    RunNode(m1, config, EndTag(name), m1.cursor.(rest := after));
    CloseCurrent(m1.(cursor := m1.cursor.(rest := after)), m.stack, m.path, name, MeantAttrs(attrs), []);
  }

  lemma NameIsNotEmpty(name: string)
    requires IsName(name)
    ensures name != ""
  {
  }

  // ----- end tags -----

  function EndText(name: string, before: string, behind: string, after: string): string {
    "</" + (before + (name + (behind + (">" + after))))
  }

  lemma ReadSpelledEnd(c: Cursor, env: Env, name: string, before: string, behind: string, after: string)
    requires c.state == ELEMENT && IsName(name) && AllWs(before) && AllWs(behind)
    requires c.rest == EndText(name, before, behind, after)
    ensures GetNextNode(c, env) == Got(EndTag(name), c.(rest := after))
  {
    hide GetNextToken, SkipWs, IsNameChar, InTables, AllWs;
    var close := ">" + after;
    var named := name + (behind + close);
    NameFirst(name);
    assert named[0] == name[0];
    EndTagToken(c.rest, env.errorChar);
    assert c.rest[2..] == before + named;
    BlankBeforeToken(before, named, env.errorChar);
    BlankOrNot(behind, close);
    EndsNameAt(behind + close);
    assert "" + name + (behind + close) == named;
    NameToken("", name, behind + close, env.errorChar);
    BlankBefore(behind, close);
    CharToken(close, env.errorChar);
    assert close[1..] == after && [close[0]] == ">";
  }

  lemma RunSpelledEnd(m: Machine, config: Config, ws: string, name: string, before: string, behind: string, after: string,
                      stack: seq<string>, path: seq<Frame>, attrs: seq<Attr>, kids: seq<Tree>)
    requires IsName(name) && AllWs(ws) && AllWs(before) && AllWs(behind) && path != []
    requires m == Inside(Cursor(ws + EndText(name, before, behind, after), CONTENT, m.cursor.lastElem), stack + [name],
                         path + [Frame(name, attrs, kids)])
    ensures Run(m, config) ==
            Run(Inside(Cursor(after, CONTENT, m.cursor.lastElem), stack, Attach(path, [Element(name, attrs, kids)])), config)
  {
    hide Run, GetNextNode, AllWs, IsName;
    var tag := EndText(name, before, behind, after);
    assert tag[0] == '<' && tag[1] == '/';
    RunToTag(m, config, ws, tag);
    var m1 := m.(cursor := m.cursor.(rest := tag, state := ELEMENT));
    ReadSpelledEnd(m1.cursor, EnvOf(m1, config), name, before, behind, after);
    RunNode(m1, config, EndTag(name), m1.cursor.(rest := after));
    CloseCurrent(m1.(cursor := m1.cursor.(rest := after)), stack, path, name, attrs, kids);
  }

  // ----- comments and processing instructions -----

  /** No two dashes in a row; then the parser also wants the comment not to be empty, nor to begin with `>` or `->`. */
  predicate CommentOk(body: string) {
    NoDashes(body) && body != "" && body[|body| - 1] != '-' && body[0] != '>' && !("->" <= body)
  }

  predicate NoDashes(body: string) {
    forall i | 0 <= i < |body| - 1 :: !(body[i] == '-' && body[i + 1] == '-')
  }

  function CommentText(body: string, after: string): string {
    "<!--" + (body + ("-->" + after))
  }

  lemma {:induction false} FindCommentEnd(body: string, after: string)
    requires NoDashes(body) && body != "" && body[|body| - 1] != '-'
    ensures Find(body + ("-->" + after), "-->") == |body|
  {
    var r := body + ("-->" + after);
    NotTheEnd(body, after);
    assert r[1..] == body[1..] + ("-->" + after);
    if |body| == 1 {
      assert r[1..] == "-->" + after && "-->" <= r[1..];
    } else {
      FindCommentEnd(body[1..], after);
    }
  }

  lemma NotTheEnd(body: string, after: string)
    requires NoDashes(body) && body != "" && body[|body| - 1] != '-'
    ensures !("-->" <= body + ("-->" + after))
  {
    var r := body + ("-->" + after);
    if |body| == 1 {
      assert r[0] == body[0];
    } else {
      assert r[0] == body[0] && r[1] == body[1];
    }
  }

  lemma CommentIsSkipped(body: string, after: string)
    requires CommentOk(body)
    ensures SkipComment(CommentText(body, after)) == Scan(true, after)
  {
    hide Find, NoDashes;
    var r := CommentText(body, after);
    var tail := body + ("-->" + after);
    FindCommentEnd(body, after);
    assert r[4..] == tail;
    FindFrom(r, 4, "-->");
    assert r[0] == '<' && r[1] == '!' && r[4] == body[0] && (|body| > 1 ==> r[5] == body[1]);
    forall i | 0 <= i < 4 ensures !("-->" <= r[i..]) {
      assert r[i..][0] == r[i] && r[i..][1] == r[i + 1] && r[i..][2] == r[i + 2];
    }
    assert r[|body| + 3] == body[|body| - 1];
    assert r[|body| + 7..] == after;
  }

  /** Of the comments that XML 1.0 allows, exactly those are skipped as a whole. */
  lemma CommentIsSkippedIff(body: string, after: string)
    requires NoDashes(body) && (body == "" || body[|body| - 1] != '-')
    ensures SkipComment(CommentText(body, after)) == Scan(true, after) <==> CommentOk(body)
  {
    hide NoDashes;
    if CommentOk(body) {
      CommentIsSkipped(body, after);
    } else {
      EarlyEnd(body, after);
    }
  }

  lemma EarlyEnd(body: string, after: string)
    requires body == "" || body[0] == '>' || "->" <= body
    ensures SkipComment(CommentText(body, after)) != Scan(true, after)
  {
    var r := CommentText(body, after);
    var n := if body == "" then 4 else if body[0] == '>' then 2 else 3;
    assert r[0] == '<' && r[1] == '!' && r[2] == '-' && r[3] == '-';
    assert r[4] == (body + "-")[0] && r[5] == (body + "--")[1] && r[6] == (body + "-->")[2];
    forall i | 0 <= i < n ensures !("-->" <= r[i..]) {
      assert r[i..][0] == r[i] && r[i..][1] == r[i + 1] && r[i..][2] == r[i + 2];
    }
    assert r[n..][0] == '-' && r[n..][1] == '-' && r[n..][2] == '>';
    assert "-->" <= r[n..];
    FindFrom(r, n, "-->");
  }

  /** A key that does not start before offset `n` is found after it. */
  lemma {:induction false} FindFrom(r: string, n: nat, key: string)
    requires key != "" && n <= |r| && Find(r[n..], key) >= 0
    ensures (forall i | 0 <= i < n :: !(key <= r[i..])) ==> Find(r, key) == n + Find(r[n..], key)
    decreases n
  {
    if n == 0 {
      assert r[0..] == r;
    } else {
      assert r[1..][n - 1..] == r[n..];
      FindFrom(r[1..], n - 1, key);
      if forall i | 0 <= i < n :: !(key <= r[i..]) {
        assert r[0..] == r;
        forall i | 0 <= i < n - 1 ensures !(key <= r[1..][i..]) {
          assert r[1..][i..] == r[i + 1..];
        }
      }
    }
  }

  /** The body of a processing instruction whose target is not `xml`. */
  predicate InstructionOk(body: string) {
    && (forall i | 0 <= i < |body| - 1 :: !(body[i] == '?' && body[i + 1] == '>'))
    && (body != "" ==> body[0] != '>' && body[|body| - 1] != '?')
    && !StartsIgnoringCase("<?" + body + "?>", "<?xml ") && !StartsIgnoringCase("<?" + body + "?>", "<?xml?")
  }

  function InstructionText(body: string, after: string): string {
    "<?" + (body + ("?>" + after))
  }

  lemma FindInstructionEnd(body: string, after: string)
    requires InstructionOk(body)
    ensures Find(InstructionText(body, after), "?>") == |body| + 2
  {
    var r := InstructionText(body, after);
    assert r[2..] == body + ("?>" + after);
    FindInBody(body, after);
    assert r[0] == '<' && r[1] == '?';
    assert r[2] == if body == "" then '?' else body[0];
    FindFrom(r, 2, "?>");
    assert forall i | 0 <= i < 2 :: r[i..][0] == r[i] && r[i..][1] == r[i + 1];
  }

  lemma {:induction false} FindInBody(body: string, after: string)
    requires forall i | 0 <= i < |body| - 1 :: !(body[i] == '?' && body[i + 1] == '>')
    requires body != "" ==> body[|body| - 1] != '?'
    ensures Find(body + ("?>" + after), "?>") == |body|
  {
    var r := body + ("?>" + after);
    if body == "" {
      assert r == "?>" + after && "?>" <= r;
    } else {
      assert r[0] == body[0] && (|body| > 1 ==> r[1] == body[1]);
      assert r[1..] == body[1..] + ("?>" + after);
      FindInBody(body[1..], after);
    }
  }

  lemma InstructionStart(body: string, after: string)
    requires InstructionOk(body)
    ensures var r := InstructionText(body, after);
            && !StartsIgnoringCase(r, "<?xml ") && !StartsIgnoringCase(r, "<?xml?") && StartsIgnoringCase(r, "<?") && "<?" <= r
            && r[|body| + 4..] == after
  {
    var r, short := InstructionText(body, after), "<?" + body + "?>";
    assert r == short + after;
    if |body| >= 2 {
      assert forall i | 0 <= i < 6 :: r[i] == short[i];
    } else {
      assert r[2] == short[2] && r[3] == short[3];
    }
  }

  lemma InstructionIsSkipped(body: string, after: string)
    requires InstructionOk(body)
    ensures var r := InstructionText(body, after); SkipPI(r) == Scan(true, after) && SkipString(r, "?>") == Scan(true, after)
  {
    hide Find, InstructionOk, StartsIgnoringCase;
    FindInstructionEnd(body, after);
    InstructionStart(body, after);
  }

  // ----- content -----

  /** What can stand between the tags of an element. */
  datatype Item =
    | Elem(name: string, attrs: seq<SpelledAttr>, ws: string, items: seq<Item>, before: string, behind: string)
    | EmptyElem(name: string, attrs: seq<SpelledAttr>, ws: string)
    | Chars(pieces: seq<Piece>)
    | Section(value: string)
    | Comment(body: string)
    | Instruction(body: string)
    | Blank(ws: string)

  /** An item as it is written, in front of `after`. */
  function ItemText(item: Item, after: string): string {
    match item
    case Elem(name, attrs, ws, items, before, behind) =>
      OpenText(name, attrs, ws, false, ItemsText(items, EndText(name, before, behind, after)))
    case EmptyElem(name, attrs, ws) => OpenText(name, attrs, ws, true, after)
    case Chars(pieces) => Written(pieces) + after
    case Section(value) => "<![CDATA[" + value + "]]>" + after
    case Comment(body) => CommentText(body, after)
    case Instruction(body) => InstructionText(body, after)
    case Blank(ws) => ws + after
  }

  function ItemsText(items: seq<Item>, after: string): string {
    if items == [] then after else ItemText(items[0], ItemsText(items[1..], after))
  }

  /** Character data that is no white space, with neither `<` nor `]]>` in it. */
  predicate CharsOk(pieces: seq<Piece>) {
    && AllOk(pieces) && !AllWs(Written(pieces))
    && (forall c | c in Written(pieces) :: c != '<')
    && forall i | 0 <= i <= |Written(pieces)| :: !("]]>" <= Written(pieces)[i..])
  }

  predicate ItemOk(item: Item) {
    match item
    case Elem(name, attrs, ws, items, before, behind) =>
      IsName(name) && !HasColon(name) && AttrsOk(attrs) && AllWs(ws) && AllWs(before) && AllWs(behind) && ItemsOk(items)
    case EmptyElem(name, attrs, ws) => IsName(name) && !HasColon(name) && AttrsOk(attrs) && AllWs(ws)
    case Chars(pieces) => CharsOk(pieces)
    case Section(value) => IsCData(value)
    case Comment(body) => CommentOk(body)
    case Instruction(body) => InstructionOk(body)
    case Blank(ws) => AllWs(ws)
  }

  /** White space next to character data belongs to it, and so do more characters. */
  predicate ItemsOk(items: seq<Item>) {
    items == [] ||
    (&& ItemOk(items[0]) && ItemsOk(items[1..])
     && (items[0].Chars? && |items| > 1 ==> !items[1].Chars? && !items[1].Blank?)
     && (items[0].Blank? && |items| > 1 ==> !items[1].Chars?))
  }

  /** The trees that the items denote. */
  function MeantItems(items: seq<Item>): seq<Tree>
    requires ItemsOk(items)
  {
    if items == [] then [] else MeantItem(items[0]) + MeantItems(items[1..])
  }

  function MeantItem(item: Item): seq<Tree>
    requires ItemOk(item)
  {
    match item
    case Elem(name, attrs, ws, items, before, behind) => [Element(name, MeantAttrs(attrs), MeantItems(items))]
    case EmptyElem(name, attrs, ws) => [Element(name, MeantAttrs(attrs), [])]
    case Chars(pieces) => [TextNode(Meant(pieces))]
    case Section(value) => [CDataNode(value)]
    case _ => []
  }

  lemma {:induction false} TextEndsAt(raw: string, after: string)
    requires (forall c | c in raw :: c != '<') && after != "" && after[0] == '<'
    requires forall i | 0 <= i <= |raw| :: !("]]>" <= raw[i..])
    ensures TextLength(raw + after) == |raw|
  {
    var r := raw + after;
    if raw == "" {
      assert r == after;
    } else {
      assert r[0] == raw[0] && raw[0] in raw;
      StillOpen(raw, after);
      assert r[1..] == raw[1..] + after;
      assert forall c | c in raw[1..] :: c in raw;
      forall i | 0 <= i <= |raw[1..]| ensures !("]]>" <= raw[1..][i..]) {
        assert raw[1..][i..] == raw[i + 1..];
      }
      TextEndsAt(raw[1..], after);
    }
  }

  lemma StillOpen(raw: string, after: string)
    requires raw != "" && !("]]>" <= raw[0..]) && after != "" && after[0] == '<'
    ensures !("]]>" <= raw + after)
  {
    var r := raw + after;
    assert raw[0..] == raw;
    if |raw| >= 3 {
      assert r[..3] == raw[..3];
    } else {
      assert r[|raw|] == '<';
    }
  }

  /** Character data in any spelling. */
  lemma ReadChars(c: Cursor, env: Env, pieces: seq<Piece>, after: string)
    requires c.state == CONTENT && CharsOk(pieces) && after != "" && after[0] == '<'
    requires c.rest == Written(pieces) + after
    ensures GetNextNode(c, env) == Got(Text(Meant(pieces)), c.(rest := after))
  {
    hide SkipWs, TextLength, CopyLoop, AllWs, Written, Meant, PieceOk;
    var raw := Written(pieces);
    SkipToText(raw, after);
    TextEndsAt(raw, after);
    NotAllWsNotEmpty(raw);
    WrittenIsCopied(pieces, after, env.errorChar);
    assert c.rest[|raw|..] == after;
  }

  /** White space and a comment, or an instruction, are passed over. */
  lemma ReadMisc(c: Cursor, env: Env, ws: string, item: Item, after: string)
    requires c.state == CONTENT && AllWs(ws) && ItemOk(item) && (item.Comment? || item.Instruction?)
    requires c.rest == ws + ItemText(item, after)
    ensures GetNextNode(c, env) == Got(Nothing, c.(rest := after))
  {
    hide SkipWs, AllWs, SkipComment, SkipPI, CommentOk, InstructionOk;
    var r := ItemText(item, after);
    MiscStart(item, after);
    SkipAllWs(ws, r);
    if item.Comment? {
      CommentIsSkipped(item.body, after);
    } else {
      InstructionIsSkipped(item.body, after);
    }
  }

  lemma MiscStart(item: Item, after: string)
    requires item.Comment? || item.Instruction?
    ensures var r := ItemText(item, after);
            && r != "" && r[0] == '<' && !IsWs(r[0]) && !("<![CDATA[" <= r)
            && (item.Comment? ==> "<!--" <= r) && (item.Instruction? ==> "<?" <= r && !("<!--" <= r))
  {
    var r := ItemText(item, after);
    assert r[1] == if item.Comment? then '!' else '?';
    if item.Comment? {
      assert r[2] == '-' && r[3] == '-';
    }
  }

  /** Items other than white space and characters start with markup, and so does what follows the last. */
  lemma MarkupFirst(items: seq<Item>, after: string)
    requires after != "" && after[0] == '<' && (items != [] ==> !items[0].Chars? && !items[0].Blank?)
    ensures ItemsText(items, after) != "" && ItemsText(items, after)[0] == '<'
  {
  }

  lemma ItemsParts(items: seq<Item>, after: string)
    requires items != [] && ItemsOk(items)
    ensures ItemOk(items[0]) && ItemsOk(items[1..]) && MeantItems(items) == MeantItem(items[0]) + MeantItems(items[1..])
    ensures ItemsText(items, after) == ItemText(items[0], ItemsText(items[1..], after))
    ensures items[0].Chars? && |items| > 1 ==> !items[1].Chars? && !items[1].Blank?
    ensures items[0].Blank? && |items| > 1 ==> !items[1].Chars?
    ensures items[0].Blank? ==> AllWs(items[0].ws) && MeantItem(items[0]) == []
  {
  }

  /** One item that is no white space, with white space before it. */
  lemma {:induction false} RunItem(item: Item, ws: string, rest: string, m: Machine, config: Config) returns (lastElem: string)
    requires ItemOk(item) && !item.Blank? && Ready(m) && AllWs(ws)
    requires item.Chars? ==> ws == "" && rest != "" && rest[0] == '<'
    requires m.cursor.state == CONTENT && m.cursor.rest == ws + ItemText(item, rest)
    ensures Run(m, config) ==
            Run(Inside(Cursor(rest, CONTENT, lastElem), m.stack, Attach(m.path, MeantItem(item))), config)
    decreases item, 2
  {
    hide Run, GetNextNode, AllWs, Attach, ItemOk, ItemText, Written, MeantItem, MeantItems;
    var env := EnvOf(m, config);
    lastElem := m.cursor.lastElem;
    match item {
      case Elem(_, _, _, _, _, _) =>
        lastElem := RunElem(item, ws, rest, m, config);
      case EmptyElem(_, _, _) =>
        lastElem := RunEmptyElem(item, ws, rest, m, config);
      case Chars(pieces) =>
        CharsParts(item, rest);
        ReadChars(m.cursor, env, pieces, rest);
        RunLeaf(m, config, Text(Meant(pieces)), TextNode(Meant(pieces)), m.cursor.(rest := rest));
      case Section(value) =>
        SectionParts(item, rest);
        ReadCData(m.cursor, env, ws, value, rest);
        RunLeaf(m, config, CData(value), CDataNode(value), m.cursor.(rest := rest));
      case _ =>
        ReadMisc(m.cursor, env, ws, item, rest);
        RunNode(m, config, Nothing, m.cursor.(rest := rest));
        MiscMeansNothing(item, m.path);
    }
  }

  lemma CharsParts(item: Item, rest: string)
    requires ItemOk(item) && item.Chars?
    ensures CharsOk(item.pieces) && AllOk(item.pieces) && "" + ItemText(item, rest) == Written(item.pieces) + rest
    ensures MeantItem(item) == [TextNode(Meant(item.pieces))]
  {
    hide PieceOk;
  }

  lemma SectionParts(item: Item, rest: string)
    requires ItemOk(item) && item.Section?
    ensures IsCData(item.value) && ItemText(item, rest) == "<![CDATA[" + item.value + "]]>" + rest
    ensures MeantItem(item) == [CDataNode(item.value)]
  {
  }

  lemma MiscMeansNothing(item: Item, path: seq<Frame>)
    requires ItemOk(item) && (item.Comment? || item.Instruction?) && path != []
    ensures Attach(path, MeantItem(item)) == path
  {
    AttachNone(path);
  }

  lemma RunEmptyElem(item: Item, ws: string, rest: string, m: Machine, config: Config) returns (lastElem: string)
    requires ItemOk(item) && item.EmptyElem? && CanOpen(m) && AllWs(ws)
    requires m.cursor.state == CONTENT && m.cursor.rest == ws + ItemText(item, rest)
    ensures Run(m, config) ==
            Run(Inside(Cursor(rest, CONTENT, lastElem), m.stack, Attach(m.path, MeantItem(item))), config)
  {
    hide Run, AllWs, Attach, HasColon, IsName, AttrsText, AttrsOk, AtTag, MeantAttrs;
    OpenAtTag(item.name, item.attrs, item.ws, true, rest);
    RunToTag(m, config, ws, OpenText(item.name, item.attrs, item.ws, true, rest));
    var m1 := m.(cursor := m.cursor.(rest := OpenText(item.name, item.attrs, item.ws, true, rest), state := ELEMENT));
    RunEmptyElement(m1, config, item.name, item.attrs, item.ws, rest);
    lastElem := item.name;
  }

  /** No prefix was read so far, and an element may be opened. */
  predicate CanOpen(m: Machine) {
    m.path != [] && m.plain && !(m.hasTopLevel && m.stack == [])
  }

  lemma OpenAtTag(name: string, attrs: seq<SpelledAttr>, ws: string, empty: bool, after: string)
    requires IsName(name)
    ensures var r := OpenText(name, attrs, ws, empty, after); AtTag(r) && !("<![CDATA[" <= r) && !("<!DOCTYPE" <= r)
  {
    hide IsNameChar, AttrsText, CloseText;
    NameFirst(name);
    NameStart(name);
    var r := OpenText(name, attrs, ws, empty, after);
    assert r[0] == '<' && r[1] == name[0];
  }

  lemma {:induction false} RunElem(item: Item, ws: string, rest: string, m: Machine, config: Config) returns (lastElem: string)
    requires ItemOk(item) && item.Elem? && CanOpen(m) && AllWs(ws)
    requires m.cursor.state == CONTENT && m.cursor.rest == ws + ItemText(item, rest)
    ensures Run(m, config) ==
            Run(Inside(Cursor(rest, CONTENT, lastElem), m.stack, Attach(m.path, MeantItem(item))), config)
    decreases item, 1
  {
    hide Run, AllWs, Attach, ItemOk, ItemsOk, ItemText, ItemsText, MeantItem, MeantItems, AtTag, IsName;
    var r := ElemText(item, rest);
    ElemParts(item, rest);
    OpenAtTag(item.name, item.attrs, item.ws, false, ElemInside(item, rest));
    RunToTag(m, config, ws, r);
    lastElem := RunElemAtTag(item, rest, m.(cursor := m.cursor.(rest := r, state := ELEMENT)), config);
  }

  function ElemInside(item: Item, rest: string): string
    requires item.Elem?
  {
    ItemsText(item.items, EndText(item.name, item.before, item.behind, rest))
  }

  function ElemText(item: Item, rest: string): string
    requires item.Elem?
  {
    OpenText(item.name, item.attrs, item.ws, false, ElemInside(item, rest))
  }

  lemma ElemParts(item: Item, rest: string)
    requires ItemOk(item) && item.Elem?
    ensures ItemText(item, rest) == ElemText(item, rest)
    ensures IsName(item.name) && !HasColon(item.name) && AttrsOk(item.attrs) && AllWs(item.ws) && AllWs(item.before) && AllWs(item.behind)
    ensures ItemsOk(item.items) && MeantItem(item) == [Element(item.name, MeantAttrs(item.attrs), MeantItems(item.items))]
  {
  }

  lemma {:induction false} RunElemAtTag(item: Item, rest: string, m: Machine, config: Config) returns (lastElem: string)
    requires ItemOk(item) && item.Elem? && CanOpen(m)
    requires m.cursor.state == ELEMENT && m.cursor.rest == ElemText(item, rest)
    ensures Run(m, config) ==
            Run(Inside(Cursor(rest, CONTENT, lastElem), m.stack, Attach(m.path, MeantItem(item))), config)
    decreases item, 0
  {
    hide Run, AllWs, Attach, ItemOk, ItemsOk, ItemsText, MeantItem, MeantItems, OpenText, EndText, IsName, HasColon, AttrsOk, MeantAttrs;
    ElemParts(item, rest);
    var inside := ElemInside(item, rest);
    var close := EndText(item.name, item.before, item.behind, rest);
    var _ := RunSpelledOpen(m, config, item.name, item.attrs, item.ws, false, inside);
    var frame := Frame(item.name, MeantAttrs(item.attrs), []);
    var stack, path := m.stack + [item.name], m.path + [frame];
    var m1 := Inside(Cursor(inside, CONTENT, item.name), stack, path);
    EndIsMarkup(item.name, item.before, item.behind, rest);
    assert "" + inside == inside;
    NoWs();
    var ws, last := RunItems(item.items, "", close, m1, config);
    AttachToNew(m.path, frame, MeantItems(item.items));
    assert [] + MeantItems(item.items) == MeantItems(item.items);
    var m2 := Inside(Cursor(ws + close, CONTENT, last), stack, m.path + [frame.(kids := MeantItems(item.items))]);
    RunSpelledEnd(m2, config, ws, item.name, item.before, item.behind, rest, m.stack, m.path, MeantAttrs(item.attrs), MeantItems(item.items));
    lastElem := last;
  }

  lemma EndIsMarkup(name: string, before: string, behind: string, after: string)
    ensures "</" <= EndText(name, before, behind, after)
  {
  }

  /** The content of an element is read item by item; white space may be left before its end tag. */
  lemma {:induction false} RunItems(items: seq<Item>, ws: string, after: string, m: Machine, config: Config)
    returns (ws': string, lastElem: string)
    requires ItemsOk(items) && Ready(m) && AllWs(ws) && "</" <= after
    requires items != [] && items[0].Chars? ==> ws == ""
    requires m.cursor.state == CONTENT && m.cursor.rest == ws + ItemsText(items, after)
    ensures AllWs(ws')
    ensures Run(m, config) ==
            Run(Inside(Cursor(ws' + after, CONTENT, lastElem), m.stack, Attach(m.path, MeantItems(items))), config)
    decreases items
  {
    hide Run, AllWs, Attach, ItemOk, ItemsOk, ItemText, ItemsText, MeantItem, MeantItems;
    if items == [] {
      NoItems(after, m.path);
      ws', lastElem := ws, m.cursor.lastElem;
    } else {
      ItemsParts(items, after);
      var rest := ItemsText(items[1..], after);
      if items[0].Blank? {
        BlankText(ws, items[0].ws, rest);
        AllWsConcat(ws, items[0].ws);
        ws', lastElem := RunItems(items[1..], ws + items[0].ws, after, m, config);
        assert [] + MeantItems(items[1..]) == MeantItems(items[1..]);
      } else {
        if items[0].Chars? {
          MarkupFirst(items[1..], after);
        }
        lastElem := RunItem(items[0], ws, rest, m, config);
        AttachKeepsPath(m.path, MeantItem(items[0]));
        var m1 := Inside(Cursor(rest, CONTENT, lastElem), m.stack, Attach(m.path, MeantItem(items[0])));
        NoWs();
        assert "" + rest == rest;
        ws', lastElem := RunItems(items[1..], "", after, m1, config);
        AttachTwice(m.path, MeantItem(items[0]), MeantItems(items[1..]));
      }
    }
  }

  lemma NoItems(after: string, path: seq<Frame>)
    requires path != []
    ensures ItemsText([], after) == after && Attach(path, MeantItems([])) == path
  {
    AttachNone(path);
  }

  lemma BlankText(ws: string, blank: string, rest: string)
    ensures ws + ItemText(Blank(blank), rest) == (ws + blank) + rest
  {
  }

  // ----- what stands before and after the root -----

  predicate IsMisc(items: seq<Item>) {
    forall i | 0 <= i < |items| :: (items[i].Comment? || items[i].Instruction? || items[i].Blank?) && ItemOk(items[i])
  }

  /** Comments, instructions and white space after the root. */
  lemma {:induction false} RunTrail(items: seq<Item>, ws: string, m: Machine, config: Config)
    requires IsMisc(items) && AllWs(ws) && m.path != [] && m.stack == [] && m.cursor.state == CONTENT
    requires m.cursor.rest == ws + ItemsText(items, "")
    ensures Run(m, config) == Accepted(m.path[0].kids)
    decreases |items|
  {
    hide Run, GetNextNode, AllWs, ItemOk, ItemText;
    if items == [] {
      assert ws + "" == ws;
      if ws != "" {
        ReadToEnd(m.cursor, EnvOf(m, config));
        RunNode(m, config, Nothing, m.cursor.(rest := ""));
      }
      RunAtEnd(m.(cursor := m.cursor.(rest := "")), config);
    } else {
      var rest := ItemsText(items[1..], "");
      if items[0].Blank? {
        BlankText(ws, items[0].ws, rest);
        BlankIsWs(items[0]);
        AllWsConcat(ws, items[0].ws);
        RunTrail(items[1..], ws + items[0].ws, m, config);
      } else {
        ReadMisc(m.cursor, EnvOf(m, config), ws, items[0], rest);
        RunNode(m, config, Nothing, m.cursor.(rest := rest));
        NoWs();
        assert "" + rest == rest;
        RunTrail(items[1..], "", m.(cursor := m.cursor.(rest := rest)), config);
      }
    }
  }

  lemma BlankIsWs(item: Item)
    requires ItemOk(item) && item.Blank?
    ensures AllWs(item.ws)
  {
  }

  function Stripped(items: seq<Item>): (list: seq<Item>)
    ensures |list| <= |items| && (list != [] ==> !list[0].Blank?)
    ensures IsMisc(items) ==> IsMisc(list)
  {
    if items == [] || !items[0].Blank? then items else Stripped(items[1..])
  }

  lemma {:induction false} SkipBlanks(items: seq<Item>, body: string)
    requires IsMisc(items) && (body == "" || AtTag(body))
    ensures SkipWs(ItemsText(items, body)) == ItemsText(Stripped(items), body)
    decreases |items|
  {
    hide ItemOk;
    if items != [] {
      var rest := ItemsText(items[1..], body);
      if items[0].Blank? {
        BlankIsWs(items[0]);
        SkipWsTwice(items[0].ws, rest);
        SkipBlanks(items[1..], body);
      } else {
        MiscStart(items[0], rest);
      }
    }
  }

  lemma {:induction false} SkipWsTwice(ws: string, rest: string)
    requires AllWs(ws)
    ensures SkipWs(ws + rest) == SkipWs(rest)
  {
    if ws == "" {
      assert ws + rest == rest;
    } else {
      assert (ws + rest)[1..] == ws[1..] + rest;
      SkipWsTwice(ws[1..], rest);
    }
  }

  /** Parser_skipMisc passes over such a list, if it does not begin with white space. */
  lemma {:induction false} MiscIsSkipped(items: seq<Item>, body: string)
    requires IsMisc(items) && (body == "" || AtTag(body)) && (items != [] ==> !items[0].Blank?)
    ensures SkipMisc(ItemsText(items, body)) == Scan(true, body)
    decreases |items|
  {
    hide SkipWs, ItemOk, SkipMisc;
    if items == [] {
      if body == "" {
        NotMiscChar(body);
        SkipNoWs(body);
      } else {
        NotMisc(body);
      }
    } else {
      var rest := ItemsText(items[1..], body);
      OneMisc(items[0], rest);
      SkipBlanks(items[1..], body);
      MiscIsSkipped(Stripped(items[1..]), body);
    }
  }

  lemma OneMisc(item: Item, rest: string)
    requires ItemOk(item) && (item.Comment? || item.Instruction?)
    ensures SkipMisc(ItemText(item, rest)) == SkipMisc(SkipWs(rest))
  {
    hide SkipComment, SkipString, CommentOk, InstructionOk, SkipWs;
    var r := ItemText(item, rest);
    MiscStart(item, rest);
    if item.Comment? {
      CommentIsSkipped(item.body, rest);
      CaselessPrefix(r, "<!--");
    } else {
      InstructionStart(item.body, rest);
      InstructionIsSkipped(item.body, rest);
      CaselessPrefix(r, "<!--");
    }
  }

  /** Part of a document type: a character, a quoted string, or something in angle brackets. */
  datatype Dtd = Plain(c: char) | Quoted(s: string) | Nested(parts: seq<Dtd>)

  predicate DtdOk(d: Dtd) {
    match d
    case Plain(c) => c != '<' && c != '>' && c != '\"'
    case Quoted(s) => forall c | c in s :: c != '\"'
    case Nested(parts) => forall part | part in parts :: DtdOk(part)
  }

  function DtdText(d: Dtd, rest: string): string {
    match d
    case Plain(c) => [c] + rest
    case Quoted(s) => "\"" + (s + ("\"" + rest))
    case Nested(parts) => "<" + DtdsText(parts, ">" + rest)
  }

  function DtdsText(parts: seq<Dtd>, rest: string): string {
    if parts == [] then rest else DtdText(parts[0], DtdsText(parts[1..], rest))
  }

  lemma {:induction false} DtdIsSkipped(d: Dtd, rest: string, open: int)
    requires DtdOk(d) && open >= 1
    ensures SkipDocType(DtdText(d, rest), open) == SkipDocType(rest, open)
    decreases d
  {
    var r := DtdText(d, rest);
    match d {
      case Plain(c) =>
        assert r[1..] == rest;
      case Quoted(s) =>
        assert r[1..] == s + ("\"" + rest);
        FindQuote(s, rest);
        assert r[|s| + 2..] == rest;
      case Nested(parts) =>
        assert r[1..] == DtdsText(parts, ">" + rest);
        DtdsAreSkipped(parts, ">" + rest, open + 1);
        assert (">" + rest)[1..] == rest;
    }
  }

  lemma {:induction false} DtdsAreSkipped(parts: seq<Dtd>, rest: string, open: int)
    requires (forall part | part in parts :: DtdOk(part)) && open >= 1
    ensures SkipDocType(DtdsText(parts, rest), open) == SkipDocType(rest, open)
    decreases parts
  {
    hide SkipDocType;
    if parts != [] {
      DtdIsSkipped(parts[0], DtdsText(parts[1..], rest), open);
      DtdsAreSkipped(parts[1..], rest, open);
    }
  }

  lemma {:induction false} PlainIsSkipped(word: string, rest: string, open: int)
    requires (forall c | c in word :: c != '<' && c != '>' && c != '\"') && open >= 1
    ensures SkipDocType(word + rest, open) == SkipDocType(rest, open)
  {
    if word == "" {
      assert word + rest == rest;
    } else {
      assert (word + rest)[0] == word[0] && word[0] in word;
      assert (word + rest)[1..] == word[1..] + rest;
      assert forall c | c in word[1..] :: c in word;
      PlainIsSkipped(word[1..], rest, open);
    }
  }

  function DoctypeText(parts: seq<Dtd>, rest: string): string {
    "<" + ("!DOCTYPE" + DtdsText(parts, ">" + rest))
  }

  lemma DoctypeIsSkipped(parts: seq<Dtd>, rest: string)
    requires forall part | part in parts :: DtdOk(part)
    ensures var r := DoctypeText(parts, rest);
            r != "" && "<!DOCTYPE" <= r && AtTag(r) && SkipDocType(r[1..], 1) == Scan(true, rest)
  {
    hide DtdsText;
    var r, inside := DoctypeText(parts, rest), DtdsText(parts, ">" + rest);
    assert r[1..] == "!DOCTYPE" + inside;
    PlainIsSkipped("!DOCTYPE", inside, 1);
    DtdsAreSkipped(parts, ">" + rest, 1);
    DoctypeEnd(rest);
    assert r == "<!DOCTYPE" + inside && r[1] == '!' && r[2] == 'D';
  }

  lemma DoctypeEnd(rest: string)
    ensures SkipDocType(">" + rest, 1) == Scan(true, rest)
  {
    assert (">" + rest)[1..] == rest;
  }

  /** White space, an XML declaration, comments and instructions, and a document type with more of these. */
  datatype Prolog = Prolog(lead: string, decl: Option<string>, ws: string, misc: seq<Item>, doctype: Option<Doctype>)

  datatype Doctype = Doctype(parts: seq<Dtd>, misc: seq<Item>)

  datatype Option<T> = None | Some(value: T)

  predicate PrologOk(p: Prolog) {
    && AllWs(p.lead) && AllWs(p.ws) && IsMisc(p.misc)
    && (p.decl.Some? ==> DeclOk(p.decl.value))
    && (p.doctype.Some? ==> IsMisc(p.doctype.value.misc) && forall part | part in p.doctype.value.parts :: DtdOk(part))
  }

  predicate DeclOk(decl: string) {
    forall i | 0 <= i < |decl| :: decl[i] != '>'
  }

  function DeclText(decl: string, rest: string): string {
    "<?xml " + (decl + ("?>" + rest))
  }

  function PrologText(p: Prolog, body: string): string {
    var afterDecl := p.ws + AfterDeclText(p, body);
    p.lead + if p.decl.Some? then DeclText(p.decl.value, afterDecl) else afterDecl
  }

  function AfterDeclText(p: Prolog, body: string): string {
    ItemsText(p.misc,
              if p.doctype.Some? then DoctypeText(p.doctype.value.parts, ItemsText(p.doctype.value.misc, body)) else body)
  }

  /** The tag that the list of comments and instructions ends in. */
  function TypeOrBody(p: Prolog, body: string): string {
    if p.doctype.Some? then DoctypeText(p.doctype.value.parts, ItemsText(p.doctype.value.misc, body)) else body
  }

  /** The prolog is passed over, but for comments after white space after the document type. */
  lemma PrologIsSkipped(p: Prolog, body: string) returns (left: seq<Item>)
    requires PrologOk(p) && AtTag(body) && !("<!DOCTYPE" <= body)
    ensures IsMisc(left) && (left != [] ==> !left[0].Blank?)
    ensures SkipProlog(PrologText(p, body)) == Scan(true, ItemsText(left, body))
  {
    hide SkipMisc, SkipDocType, SkipWs, AllWs, SkipProlog, AtTag, ItemOk, DoctypeText, DeclText, PrologText, DtdOk;
    var tag := TypeOrBody(p, body);
    left := [];
    if p.doctype.Some? {
      DoctypeIsSkipped(p.doctype.value.parts, ItemsText(p.doctype.value.misc, body));
    }
    DeclIsSkipped(p, body);
    MiscIsSkipped(Stripped(p.misc), tag);
    TagIsNotEmpty(tag);
    if p.doctype.Some? {
      left := AfterDoctype(p.doctype.value.misc, body);
    } else {
      MiscIsSkipped([], body);
    }
    PrologSteps(PrologText(p, body), ItemsText(Stripped(p.misc), tag), tag,
                if p.doctype.Some? then ItemsText(p.doctype.value.misc, body) else body, ItemsText(left, body));
  }

  lemma TagIsNotEmpty(tag: string)
    requires AtTag(tag)
    ensures tag != ""
  {
  }

  lemma AfterDoctype(misc: seq<Item>, body: string) returns (left: seq<Item>)
    requires IsMisc(misc) && AtTag(body)
    ensures IsMisc(left) && (left != [] ==> !left[0].Blank?)
    ensures SkipMisc(ItemsText(misc, body)) == Scan(true, ItemsText(left, body))
  {
    hide SkipMisc, SkipWs, AtTag, ItemOk;
    if misc != [] && misc[0].Blank? {
      var rest := ItemsText(misc[1..], body);
      BlankIsWs(misc[0]);
      SkipBlanks(misc, body);
      left := Stripped(misc);
      if misc[0].ws == "" {
        assert "" + rest == rest;
        left := AfterDoctype(misc[1..], body);
      } else {
        NotMiscChar(ItemsText(misc, body));
      }
    } else {
      MiscIsSkipped(misc, body);
      left := [];
    }
  }

  /** What is left after white space and the declaration. */
  lemma DeclIsSkipped(p: Prolog, body: string)
    requires PrologOk(p) && AtTag(TypeOrBody(p, body))
    ensures var r, rest := SkipWs(PrologText(p, body)), ItemsText(Stripped(p.misc), TypeOrBody(p, body));
            if "<?xml " <= r then SkipString(r, "?>").ok && SkipWs(SkipString(r, "?>").rest) == rest else r == rest
  {
    hide SkipWs, AtTag, ItemOk, DoctypeText, SkipString, InstructionOk, CommentOk, DtdOk, AllWs;
    var tag := TypeOrBody(p, body);
    var afterDecl := p.ws + ItemsText(p.misc, tag);
    SkipBlanks(p.misc, tag);
    SkipWsTwice(p.ws, ItemsText(p.misc, tag));
    if p.decl.Some? {
      var r := DeclText(p.decl.value, afterDecl);
      SkipWsTwice(p.lead, r);
      SkipNoWs(r);
      DeclEnds(p.decl.value, afterDecl);
    } else {
      SkipWsTwice(p.lead, afterDecl);
      NoDeclaration(Stripped(p.misc), tag);
    }
  }

  lemma DeclEnds(decl: string, rest: string)
    requires DeclOk(decl)
    ensures var r := DeclText(decl, rest); r != "" && !IsWs(r[0]) && "<?xml " <= r && SkipString(r, "?>") == Scan(true, rest)
  {
    var r, head := DeclText(decl, rest), "<?xml " + decl;
    assert r == head + "?>" + rest;
    assert forall i | 6 <= i < |head| :: head[i] == decl[i - 6];
    FindFirst(head, "?>", rest);
    assert r[|head| + 2..] == rest;
  }

  lemma NoDeclaration(items: seq<Item>, tag: string)
    requires IsMisc(items) && AtTag(tag) && (items != [] ==> !items[0].Blank?)
    ensures !("<?xml " <= ItemsText(items, tag))
  {
    hide ItemOk;
    if items == [] {
      assert !("<?" <= tag);
    } else {
      var rest := ItemsText(items[1..], tag);
      MiscStart(items[0], rest);
      var r := ItemText(items[0], rest);
      if items[0].Instruction? {
        NoDeclarationHere(items[0], rest);
      } else {
        assert r[1] == '!';
      }
    }
  }

  lemma NoDeclarationHere(item: Item, rest: string)
    requires ItemOk(item) && item.Instruction?
    ensures !("<?xml " <= ItemText(item, rest))
  {
    InstructionStart(item.body, rest);
  }

  lemma PrologSteps(text: string, misc: string, tag: string, afterType: string, left: string)
    requires var r := SkipWs(text);
             if "<?xml " <= r then SkipString(r, "?>").ok && SkipWs(SkipString(r, "?>").rest) == misc else r == misc
    requires SkipMisc(misc) == Scan(true, tag) && tag != ""
    requires if "<!DOCTYPE" <= tag then SkipDocType(tag[1..], 1) == Scan(true, afterType) else afterType == tag
    requires SkipMisc(afterType) == Scan(true, left)
    ensures SkipProlog(text) == Scan(true, left)
  {
    hide SkipMisc, SkipDocType, SkipWs, SkipString;
  }

  // ----- documents -----

  predicate IsRoot(item: Item) {
    (item.Elem? || item.EmptyElem?) && ItemOk(item)
  }

  function DocumentText(p: Prolog, root: Item, trail: seq<Item>): string {
    PrologText(p, ItemText(root, ItemsText(trail, "")))
  }

  /** The parser reads every document of the grammar as the tree that it denotes. */
  lemma GrammarIsRead(p: Prolog, root: Item, trail: seq<Item>, config: Config)
    requires PrologOk(p) && IsRoot(root) && IsMisc(trail)
    ensures Parse(DocumentText(p, root, trail), config) == Accepted(MeantItem(root))
  {
    hide Run, SkipProlog, PrologText, ItemText, ItemsText, ItemOk, MeantItem, PrologOk, AtTag, IsMisc;
    var body := ItemText(root, ItemsText(trail, ""));
    RootAtTag(root, ItemsText(trail, ""));
    var left := PrologIsSkipped(p, body);
    RunAfterMisc(left, body, config);
    RunRootItem(root, trail, config);
  }

  lemma RootAtTag(root: Item, rest: string)
    requires IsRoot(root)
    ensures var r := ItemText(root, rest); AtTag(r) && !("<!DOCTYPE" <= r)
  {
    hide OpenText, AtTag, IsName;
    if root.Elem? {
      ElemParts(root, rest);
      OpenAtTag(root.name, root.attrs, root.ws, false, ElemInside(root, rest));
    } else {
      OpenAtTag(root.name, root.attrs, root.ws, true, rest);
    }
  }

  /** A comment before a tag does not change what the tag is read as. */
  lemma RunAfterMisc(left: seq<Item>, body: string, config: Config)
    requires IsMisc(left) && (left != [] ==> !left[0].Blank?) && AtTag(body)
    ensures Run(Start(ItemsText(left, body)), config) == Run(Start(body), config)
  {
    hide Run, GetNextToken, SkipMisc, SkipWs, AtTag, GetNextNode, ItemOk;
    if left != [] {
      var r := ItemsText(left, body);
      var env := EnvOf(Start(body), config);
      MiscIsSkipped(left, body);
      MiscIsSkipped([], body);
      MiscStart(left[0], ItemsText(left[1..], body));
      SkipNoWs(r);
      NotMisc(body);
      TagIsNotEmpty(body);
      SameTokenAfterMisc(r, body, config.errorChar);
      SameNodeAfterMisc(r, body, env);
      SameRun(Start(r), Start(body), config);
    }
  }

  lemma SameTokenAfterMisc(r: string, body: string, errorChar: ErrorChar)
    requires r != "" && body != "" && SkipMisc(r) == Scan(true, body) == SkipMisc(body)
    ensures GetNextToken(r, errorChar) == GetNextToken(body, errorChar)
  {
    hide SkipMisc, TokenLength, CopyToken;
  }

  lemma SameNodeAfterMisc(r: string, body: string, env: Env)
    requires r != "" && body != "" && SkipWs(r) == r && SkipWs(body) == body
    requires GetNextToken(r, env.errorChar) == GetNextToken(body, env.errorChar)
    ensures GetNextNode(Cursor(r, ELEMENT, ""), env) == GetNextNode(Cursor(body, ELEMENT, ""), env)
  {
    hide GetNextToken, ProcessSTag, ProcessETag, SkipWs;
  }

  lemma SameRun(m: Machine, n: Machine, config: Config)
    requires m.path != [] && n == m.(cursor := n.cursor) && m.cursor.rest != "" && n.cursor.rest != ""
    requires GetNextNode(m.cursor, EnvOf(m, config)) == GetNextNode(n.cursor, EnvOf(n, config))
    ensures Run(m, config) == Run(n, config)
  {
    hide GetNextNode, Apply;
    StepProgress(m, config);
    StepProgress(n, config);
  }

  lemma RunRootItem(root: Item, trail: seq<Item>, config: Config)
    requires IsRoot(root) && IsMisc(trail)
    ensures Run(Start(ItemText(root, ItemsText(trail, ""))), config) == Accepted(MeantItem(root))
  {
    hide Run, ItemText, ItemsText, ItemOk, MeantItem, IsMisc, AllWs;
    var rest := ItemsText(trail, "");
    var m := Start(ItemText(root, rest));
    var lastElem := RunRootElement(root, rest, m, config);
    RootMeans(root);
    AttachRoot(MeantItem(root)[0]);
    NoWs();
    assert "" + rest == rest;
    RunTrail(trail, "", Inside(Cursor(rest, CONTENT, lastElem), [], Attach(m.path, MeantItem(root))), config);
  }

  lemma RootMeans(root: Item)
    requires IsRoot(root)
    ensures |MeantItem(root)| == 1 && MeantItem(root) == [MeantItem(root)[0]] && MeantItem(root)[0].Element?
  {
  }

  lemma RunRootElement(root: Item, rest: string, m: Machine, config: Config) returns (lastElem: string)
    requires IsRoot(root) && CanOpen(m) && m.cursor.state == ELEMENT && m.cursor.rest == ItemText(root, rest)
    ensures Run(m, config) ==
            Run(Inside(Cursor(rest, CONTENT, lastElem), m.stack, Attach(m.path, MeantItem(root))), config)
  {
    hide Run, OpenText, AttrsOk, AllWs, IsName, HasColon, MeantAttrs, Attach;
    if root.Elem? {
      ElemParts(root, rest);
      lastElem := RunElemAtTag(root, rest, m, config);
    } else {
      RunEmptyElement(m, config, root.name, root.attrs, root.ws, rest);
      lastElem := root.name;
    }
  }

  // ----- in particular -----

  /** An empty-element tag is read exactly as a start tag followed by its end tag, wherever an element may stand. */
  lemma EmptyElementIsElement(m: Machine, config: Config, name: string, attrs: seq<SpelledAttr>, ws: string, after: string)
    requires IsName(name) && !HasColon(name) && AttrsOk(attrs) && AllWs(ws) && CanOpen(m) && m.cursor.state == ELEMENT
    ensures var empty, full := OpenText(name, attrs, ws, true, after), OpenText(name, attrs, ws, false, EndText(name, "", "", after));
            Run(m.(cursor := m.cursor.(rest := empty)), config) == Run(m.(cursor := m.cursor.(rest := full)), config)
  {
    hide Run, OpenText, AttrsOk, IsName, HasColon, MeantAttrs, Attach, AllWs, EndText;
    var close := EndText(name, "", "", after);
    var m1 := m.(cursor := m.cursor.(rest := OpenText(name, attrs, ws, true, after)));
    var m2 := m.(cursor := m.cursor.(rest := OpenText(name, attrs, ws, false, close)));
    NoWs();
    RunEmptyElement(m1, config, name, attrs, ws, after);
    var _ := RunSpelledOpen(m2, config, name, attrs, ws, false, close);
    assert "" + close == close;
    var m3 := Inside(Cursor("" + close, CONTENT, name), m.stack + [name], m.path + [Frame(name, MeantAttrs(attrs), [])]);
    RunSpelledEnd(m3, config, "", name, "", "", after, m.stack, m.path, MeantAttrs(attrs), []);
  }

  /** The shortest documents. */
  lemma EmptyElementDocument(name: string, config: Config)
    requires IsName(name) && !HasColon(name)
    ensures Parse("<" + name + "/>", config) == Accepted([Element(name, [], [])])
  {
    hide Parse, IsName, HasColon;
    var p, root := Prolog("", None, "", [], None), EmptyElem(name, [], "");
    GrammarIsRead(p, root, [], config);
    assert DocumentText(p, root, []) == "<" + name + "/>";
  }
}
