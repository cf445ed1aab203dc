/**
 The scanner of the ixml parser (ixmlparser.c), as functions of the text that
 is left to read.  Moving the C cursor forward is dropping a prefix of `r`; the
 terminating NUL is the empty string.
 */
module XmlScan {
  import opened Utf8
  import opened XmlNames
  import opened XmlText

  // ----- characters and searching -----

  predicate IsWs(c: char) {
    c == '\n' || c == '\t' || c == '\r' || c == ' '
  }

  /** Parser_skipWhiteSpaces */
  function SkipWs(r: string): (rest: string)
    ensures |rest| <= |r|
  {
    if r != "" && IsWs(r[0]) then SkipWs(r[1..]) else r
  }

  /** strstr: the offset of the first occurrence of `key`, or -1. */
  function Find(r: string, key: string): (i: int)
    requires key != ""
    ensures -1 <= i && (i >= 0 ==> i + |key| <= |r|)
  {
    if |r| < |key| then -1
    else if key <= r then 0
    else
      var i := Find(r[1..], key);
      if i < 0 then -1 else i + 1
  }

  /** Nothing before the offset found starts with the key; nothing at all does when none is found. */
  lemma {:induction false} FindIsFirst(r: string, key: string)
    requires key != ""
    ensures var i := Find(r, key);
            if i < 0 then forall j | 0 <= j <= |r| :: !(key <= r[j..])
            else key <= r[i..] && forall j | 0 <= j < i :: !(key <= r[j..])
  {
    if |r| >= |key| && !(key <= r) {
      FindIsFirst(r[1..], key);
      assert forall j | 1 <= j <= |r| :: r[j..] == r[1..][j - 1..];
    }
  }

  /** A return code and the cursor it leaves. */
  datatype Scan = Scan(ok: bool, rest: string)

  /** Parser_skipString: past the first occurrence of `key`; without one the cursor ends on the NUL. */
  function SkipString(r: string, key: string): (s: Scan)
    requires key != ""
    ensures |s.rest| <= |r| && (r != "" ==> |s.rest| < |r|)
  {
    var i := Find(r, key);
    if i < 0 then Scan(false, "") else Scan(true, r[i + |key|..])
  }

  /** Parser_skipComment */
  function SkipComment(r: string): (s: Scan)
    ensures |s.rest| <= |r| && (s.ok ==> |s.rest| < |r|)
  {
    var i := Find(r, "-->");
    if i > 0 && r[i - 1] != '-' then Scan(true, r[i + 3..]) else Scan(false, r)
  }

  /** Parser_skipPI: an XML declaration is not allowed here. */
  function SkipPI(r: string): (s: Scan)
    ensures |s.rest| <= |r|
  {
    if StartsIgnoringCase(r, "<?xml ") || StartsIgnoringCase(r, "<?xml?") then Scan(false, r)
    else if StartsIgnoringCase(r, "<?") then
      var i := Find(r, "?>");
      if i > 0 then Scan(true, r[i + 2..]) else Scan(false, r)
    else Scan(true, r)
  }

  /** Parser_skipMisc: comments, processing instructions and white space. */
  function SkipMisc(r: string): (s: Scan)
    ensures |s.rest| <= |r|
    decreases |r|
  {
    if StartsIgnoringCase(r, "<!--") then
      var c := SkipComment(r);
      if c.ok then SkipMisc(SkipWs(c.rest)) else Scan(false, SkipWs(c.rest))
    else if StartsIgnoringCase(r, "<?xml ") || StartsIgnoringCase(r, "<?xml?") then
      Scan(false, SkipWs(r))
    else if StartsIgnoringCase(r, "<?") then
      var p := SkipString(r, "?>");
      if p.ok then SkipMisc(SkipWs(p.rest)) else Scan(false, SkipWs(p.rest))
    else
      Scan(true, SkipWs(r))
  }

  /** The loop of Parser_skipDocType; `open` counts the unclosed angle brackets. */
  function SkipDocType(r: string, open: int): (s: Scan)
    ensures |s.rest| <= |r|
    decreases |r|
  {
    if open == 0 || r == "" then Scan(open == 0, r)
    else if r[0] == '<' then SkipDocType(r[1..], open + 1)
    else if r[0] == '>' then SkipDocType(r[1..], open - 1)
    else if r[0] == '\"' then
      var i := Find(r[1..], "\"");
      if i < 0 then Scan(false, r) else SkipDocType(r[i + 2..], open)
    else SkipDocType(r[1..], open)
  }

  /** Parser_skipProlog */
  function SkipProlog(r: string): (s: Scan)
    ensures |s.rest| <= |r|
  {
    var r1 := SkipWs(r);
    var decl := if "<?xml " <= r1 then SkipString(r1, "?>") else Scan(true, r1);
    var r2 := if "<?xml " <= r1 then SkipWs(decl.rest) else r1;
    if !decl.ok then Scan(false, r2)
    else
      var misc := SkipMisc(r2);
      if !misc.ok then misc
      else
        var dtd := if "<!DOCTYPE" <= misc.rest then SkipDocType(misc.rest[1..], 1) else misc;
        if !dtd.ok then dtd else SkipMisc(dtd.rest)
  }

  // ----- tokens -----

  /** The length in bytes of the name characters at the start of `r`. */
  function NameTail(r: string, errorChar: ErrorChar): (n: nat)
    ensures n <= |r|
  {
    var d := Utf8ToInt(r, errorChar);
    if IsNameChar(d.code, true) then
      NameCharCopies(r, errorChar);
      d.len + NameTail(r[d.len..], errorChar)
    else 0
  }

  /** A name character lies inside the text, and is copied as one character of the same length. */
  lemma NameCharCopies(r: string, errorChar: ErrorChar)
    requires IsNameChar(Utf8ToInt(r, errorChar).code, true)
    ensures r != "" && GetChar(r, errorChar) == Utf8ToInt(r, errorChar)
    ensures 0 < Utf8ToInt(r, errorChar).len <= |r|
  {
  }

  /** The branches of Parser_getNextToken: the length of the token at the cursor, zero when there is none. */
  function TokenLength(r: string, errorChar: ErrorChar): (n: nat)
    ensures n <= |r|
  {
    if r == "" then 0
    else if r[0] == '\"' || r[0] == '\'' || r[0] == '=' || r[0] == '>' then 1
    else if r[0] == '<' then
      var next := Utf8ToInt(r[1..], errorChar).code;
      if next == '/' as int then 2 else if IsNameChar(next, false) then 1 else 0
    else if r[0] == '/' then
      if |r| > 1 && r[1] == '>' then 2 else 0
    else if IsNameChar(Utf8ToInt(r, errorChar).code, false) then NameTail(r, errorChar)
    else 0
  }

  lemma {:induction false} NameCopies(r: string, errorChar: ErrorChar)
    ensures CopyLoop(r, NameTail(r, errorChar), errorChar).ok
    decreases |r|
  {
    var d := Utf8ToInt(r, errorChar);
    if IsNameChar(d.code, true) {
      NameCharCopies(r, errorChar);
      NameCopies(r[d.len..], errorChar);
      CopyLoopStep(r, NameTail(r, errorChar), errorChar);
    }
  }

  /** A token that is found is also copied, except `<` before an overlong form of the slash. */
  lemma TokenCopies(r: string, errorChar: ErrorChar)
    requires TokenLength(r, errorChar) > 0
    ensures var copy := CopyToken(r, TokenLength(r, errorChar), errorChar);
            copy.text != "" && (copy.ok || (copy.text == "</" && r[0] == '<'))
  {
    hide InTables;
    var n := TokenLength(r, errorChar);
    CopyLoopStep(r, n, errorChar);
    if r[0] in "<>=/\"'" {
      PlainChar(r, errorChar);
      if n == 2 {
        CopyLoopStep(r[1..], 1, errorChar);
        if r[0] == '/' {
          PlainChar(r[1..], errorChar);
        }
      }
    } else {
      NameCopies(r, errorChar);
    }
  }

  lemma PlainChar(r: string, errorChar: ErrorChar)
    requires r != "" && 0x20 <= r[0] as int < 128 && r[0] != '&'
    ensures GetChar(r, errorChar) == Decoded(r[0] as int, 1)
    ensures CopiedBytes(GetChar(r, errorChar)) == [r[0]]
  {
  }

  /**
   The result of Parser_getNextToken: the token length, the token buffer, where
   the token starts and where the cursor is left.
   */
  datatype Token = Token(len: nat, text: string, start: string, rest: string)

  function GetNextToken(r: string, errorChar: ErrorChar): (t: Token)
    ensures |t.rest| <= |t.start| <= |r|
    ensures t.len > 0 ==> |t.rest| < |r| && t.text != ""
    ensures t.len == 0 ==> t.text == "" || t.text == "</"
  {
    if r == "" then Token(0, "", r, r)
    else
      var misc := SkipMisc(r);
      if !misc.ok then Token(0, "", misc.rest, misc.rest)
      else
        var n := TokenLength(misc.rest, errorChar);
        if n == 0 then Token(0, "", misc.rest, misc.rest)
        else
          var copy := CopyToken(misc.rest, n, errorChar);
          TokenCopies(misc.rest, errorChar);
          if copy.ok then Token(n, copy.text, misc.rest, misc.rest[n..])
          else Token(0, copy.text, misc.rest, misc.rest)
  }

  // ----- nodes -----

  datatype State = ELEMENT | ATTRIBUTE | CONTENT

  /** The node that Parser_getNextNode fills in, together with its end-tag flag. */
  datatype NewNode =
    | Nothing
    | StartTag(name: string)
    | Attribute(name: string, value: string)
    | Text(value: string)
    | CData(value: string)
    | EndTag(name: string)

  /** The part of the Parser struct that scanning reads and writes. */
  datatype Cursor = Cursor(rest: string, state: State, lastElem: string)

  datatype Next =
    | FileDone
    | Failed
    | Got(node: NewNode, cursor: Cursor)

  /** What the scanner has to be told about its surroundings. */
  datatype Env = Env(
    errorChar: ErrorChar,
    /** whether an element is open, that is, pCurElement is not null */
    inElement: bool,
    /** the outcome of Parser_xmlNamespace on an attribute, given the text left, the name and the value */
    namespaceOk: (string, string, string) -> bool)

  /** The loop of Parser_processCDSect: a byte above 127 is negative as a C char and stops it. */
  function CDataLength(r: string): (n: nat)
    ensures n <= |r|
  {
    if r == "" || At(r, 0) > 127 || !IsXmlChar(At(r, 0)) || "]]>" <= r then 0
    else 1 + CDataLength(r[1..])
  }

  /** Parser_processCDSect, the cursor being on the opening of the section. */
  function ProcessCDSect(r: string): (next: Next)
    requires "<![CDATA[" <= r
    ensures next != FileDone
    ensures next.Got? ==> |next.cursor.rest| < |r|
  {
    var body := r[9..];
    var n := CDataLength(body);
    if n > 0 && n < |body| then
      Got(CData(body[..n]), Cursor(if n + 3 <= |body| then body[n + 3..] else "", CONTENT, ""))
    else Failed
  }

  /** The length of character data: up to `<`, `]]>` or the end. */
  function TextLength(r: string): (n: nat)
    ensures n <= |r|
  {
    if r == "" || r[0] == '<' || "]]>" <= r then 0 else 1 + TextLength(r[1..])
  }

  /** The branch of Parser_processContent for a cursor on `<`. */
  function ContentMarkup(c: Cursor): (next: Next)
    requires c.rest != "" && c.rest[0] == '<'
    ensures next != FileDone
    ensures next.Got? ==> |next.cursor.rest| < |c.rest|
                          || (next.cursor.rest == c.rest && next.cursor.state == ELEMENT && next.node == Nothing)
  {
    if "<![CDATA[" <= c.rest then
      var section := ProcessCDSect(c.rest);
      if section.Got? then Got(section.node, c.(rest := section.cursor.rest)) else Failed
    else if "<!--" <= c.rest then
      var s := SkipComment(c.rest);
      if s.ok then Got(Nothing, c.(rest := s.rest)) else Failed
    else if "<?" <= c.rest then
      var s := SkipPI(c.rest);
      if s.ok then Got(Nothing, c.(rest := s.rest)) else Failed
    else Got(Nothing, c.(state := ELEMENT))
  }

  /** Parser_processContent */
  function ProcessContent(c: Cursor, env: Env): (next: Next)
    requires c.rest != ""
    ensures next != FileDone
    ensures next.Got? ==> |next.cursor.rest| < |c.rest|
                          || (next.cursor.rest == c.rest && next.cursor.state == ELEMENT && next.node == Nothing)
  {
    var r := SkipWs(c.rest);
    if r == "" then Got(Nothing, c.(rest := r))
    else if r[0] == '<' then ContentMarkup(c.(rest := r))
    else
      var n := TextLength(c.rest);
      if "]]>" <= c.rest[n..] then Failed
      else
        var copy := CopyToken(c.rest, n, env.errorChar);
        if copy.ok then Got(Text(copy.text), c.(rest := c.rest[n..])) else Failed
  }

  /** Parser_processSTag: the element name, and a look at the token after it. */
  function ProcessSTag(c: Cursor, env: Env): (next: Next)
    ensures next != FileDone
    ensures next.Got? ==> |next.cursor.rest| < |c.rest|
  {
    var name := GetNextToken(c.rest, env.errorChar);
    if name.len == 0 then Failed
    else
      var ahead := GetNextToken(name.rest, env.errorChar);
      if ahead.len == 0 then Failed
      else Got(StartTag(name.text),
               if ahead.text == "/>" then Cursor(ahead.start, ELEMENT, name.text)
               else if ahead.text == ">" then Cursor(ahead.rest, CONTENT, name.text)
               else Cursor(name.rest, ATTRIBUTE, name.text))
  }

  /** Parser_processETag */
  function ProcessETag(c: Cursor, env: Env): (next: Next)
    ensures next != FileDone
    ensures next.Got? ==> |next.cursor.rest| < |c.rest|
  {
    var name := GetNextToken(c.rest, env.errorChar);
    if name.len == 0 then Failed
    else
      var close := GetNextToken(SkipWs(name.rest), env.errorChar);
      if close.len == 0 || close.text != ">" then Failed
      else Got(EndTag(name.text), c.(rest := close.rest))
  }

  /** The check of Parser_processAttribute on a raw value: no `<`, except right after an `&`. */
  predicate NoLessThan(v: string)
    decreases |v|
  {
    v == "" || (v[0] != '<' && NoLessThan(if v[0] == '&' && |v| > 1 then v[2..] else v[1..]))
  }

  /** Parser_processAttribute; `name` is the token just read and `c.rest` follows it. */
  function ProcessAttribute(name: string, c: Cursor, env: Env): (next: Next)
    ensures next != FileDone
    ensures next.Got? ==> |next.cursor.rest| < |c.rest|
  {
    if !IsNameChar(Utf8ToInt(name, env.errorChar).code, false) then Failed
    else
      var equals := GetNextToken(c.rest, env.errorChar);
      if equals.len == 0 || equals.text == "" || equals.text[0] != '=' then Failed
      else
        var quote := GetNextToken(equals.rest, env.errorChar);
        if quote.len == 0 || quote.text == "" || (quote.text[0] != '\"' && quote.text[0] != '\'') then Failed
        else ProcessAttributeValue(name, quote.text, c.(rest := quote.rest), env)
  }

  /** Parser_processAttribute once the opening quote is read: the value up to the closing quote. */
  function ProcessAttributeValue(name: string, quote: string, c: Cursor, env: Env): (next: Next)
    requires quote != ""
    ensures next != FileDone
    ensures next.Got? ==> |next.cursor.rest| <= |c.rest|
  {
    var end := Find(c.rest, quote);
    if end < 0 || !NoLessThan(c.rest[..end]) then Failed
    else
      var copy := if end > 0 then CopyToken(c.rest, end, env.errorChar) else Copied(true, "");
      if !copy.ok || !env.namespaceOk(c.rest[end + 1..], name, copy.text) then Failed
      else AttributeEnd(name, copy.text, c.(rest := c.rest[end + 1..]), env)
  }

  /** The end of Parser_processAttribute: a look at the token after the closing quote. */
  function AttributeEnd(name: string, value: string, c: Cursor, env: Env): (next: Next)
    ensures next != FileDone
    ensures next.Got? ==> |next.cursor.rest| <= |c.rest|
  {
    var ahead := GetNextToken(c.rest, env.errorChar);
    if ahead.len == 0 || ahead.text == "<" then Failed
    else Got(Attribute(name, value),
             if ahead.text == ">" then c.(rest := ahead.rest, state := CONTENT)
             else if ahead.text == "/>" then c.(rest := ahead.start)
             else c)
  }

  /** Parser_getNextNode */
  function GetNextNode(c: Cursor, env: Env): (next: Next)
    ensures next.Got? ==> |next.cursor.rest| < |c.rest|
                          || (next.cursor.rest == c.rest && c.state == CONTENT && next.cursor.state == ELEMENT && next.node == Nothing)
  {
    if c.rest == "" then FileDone
    else if c.state == CONTENT then ProcessContent(c, env)
    else
      var t := GetNextToken(SkipWs(c.rest), env.errorChar);
      var after := c.(rest := t.rest);
      if t.len == 0 && !env.inElement && t.rest == "" then Got(Nothing, after)
      else if t.text == "" then Failed
      else if t.text[0] == '>' then Got(Nothing, after)
      else if t.text == "</" then ProcessETag(after, env)
      else if t.text[0] == '<' then ProcessSTag(after, env)
      else if t.text == "/>" then
        if c.lastElem == "" then Failed else Got(EndTag(c.lastElem), after)
      else if c.state == ATTRIBUTE && env.inElement then ProcessAttribute(t.text, after, env)
      else Failed
  }
}
