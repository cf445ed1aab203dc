/**
 The ixml parser as it runs: the Parser struct (ixmlparser.h) and the functions
 of ixmlparser.c that move its cursors, each tied to the scanner functions and
 to the state machine.
 */
module XmlParser {
  import opened Utf8
  import opened XmlNames
  import opened XmlText
  import opened XmlScan
  import opened XmlTokens
  import opened XmlTree
  import opened XmlMachine
  import opened XmlInvariant
  import DomBuild
  import Dom

  datatype ReturnCode = IXML_SUCCESS | IXML_FAILED | IXML_FILE_DONE | IXML_SYNTAX_ERR | ASSERTION_FAILED

  // ----- functions that move a cursor they are given -----

  lemma Dropped(data: string, p: nat, n: nat)
    requires p + n <= |data|
    ensures data[p..][n..] == data[p + n..]
  {
  }

  /** Parser_skipString: `p` moves past the key, or to the end. */
  method SkipStringAt(data: string, p: nat, key: string) returns (rc: ReturnCode, q: nat)
    requires p <= |data| && key != ""
    ensures p <= q <= |data|
    ensures var s := SkipString(data[p..], key); (rc == IXML_SUCCESS <==> s.ok) && data[q..] == s.rest
    ensures rc == IXML_SUCCESS ==> q > p
  {
    q := p;
    while q < |data| && !(key <= data[q..])
      invariant p <= q <= |data|
      invariant var i := Find(data[q..], key); var j := Find(data[p..], key); i < 0 <==> j < 0
      invariant var i := Find(data[q..], key); i >= 0 ==> Find(data[p..], key) == q - p + i
    {
      FindNext(data, q, key);
      q := q + 1;
    }
    if q == |data| {
      assert Find(data[q..], key) == -1;
      return IXML_SYNTAX_ERR, q;
    }
    assert Find(data[q..], key) == 0;
    Dropped(data, p, q - p + |key|);
    q := q + |key|;
    rc := IXML_SUCCESS;
  }

  lemma FindNext(data: string, q: nat, key: string)
    requires q < |data| && key != "" && !(key <= data[q..])
    ensures var i := Find(data[q + 1..], key);
            Find(data[q..], key) == if i < 0 then -1 else i + 1
  {
    assert data[q..][1..] == data[q + 1..];
  }

  /** Parser_skipComment */
  method SkipCommentAt(data: string, p: nat) returns (rc: ReturnCode, q: nat)
    requires p <= |data|
    ensures p <= q <= |data|
    ensures var s := SkipComment(data[p..]); rc == (if s.ok then IXML_SUCCESS else IXML_SYNTAX_ERR) && data[q..] == s.rest
  {
    var found := Find(data[p..], "-->");
    if found > 0 && data[p + found - 1] != '-' {
      Dropped(data, p, found + 3);
      rc, q := IXML_SUCCESS, p + found + 3;
    } else {
      rc, q := IXML_SYNTAX_ERR, p;
    }
  }

  /** Parser_skipPI */
  method SkipPIAt(data: string, p: nat) returns (rc: ReturnCode, q: nat)
    requires p <= |data|
    ensures p <= q <= |data|
    ensures var s := SkipPI(data[p..]); rc == (if s.ok then IXML_SUCCESS else IXML_SYNTAX_ERR) && data[q..] == s.rest
  {
    hide StartsIgnoringCase, Find;
    if StartsIgnoringCase(data[p..], "<?xml ") || StartsIgnoringCase(data[p..], "<?xml?") {
      return IXML_SYNTAX_ERR, p;
    }
    if StartsIgnoringCase(data[p..], "<?") {
      var end := Find(data[p..], "?>");
      if end > 0 {
        Dropped(data, p, end + 2);
        return IXML_SUCCESS, p + end + 2;
      }
      return IXML_SYNTAX_ERR, p;
    }
    rc, q := IXML_SUCCESS, p;
  }

  /** Parser_skipDocType; strchr stands for the search for the closing quote. */
  method SkipDocTypeAt(data: string, p: nat) returns (rc: ReturnCode, q: nat)
    requires p <= |data|
    ensures p <= q <= |data|
    ensures var s := SkipDocType(data[p..], 1); (rc == IXML_SUCCESS <==> s.ok) && (s.ok ==> data[q..] == s.rest)
  {
    hide SkipDocType;
    var cur, open := p, 1;
    while open != 0 && cur < |data|
      invariant p <= cur <= |data|
      invariant var s := SkipDocType(data[p..], 1); var t := SkipDocType(data[cur..], open);
                s.ok == t.ok && (s.ok ==> s.rest == t.rest)
      decreases |data| - cur
    {
      DocTypeStep(data, cur, open);
      if data[cur] == '<' {
        open := open + 1;
      } else if data[cur] == '>' {
        open := open - 1;
      } else if data[cur] == '\"' {
        var next := Find(data[cur + 1..], "\"");
        if next < 0 {
          return IXML_SYNTAX_ERR, p;
        }
        cur := cur + 1 + next;
      }
      cur := cur + 1;
    }
    DocTypeEnd(data[cur..], open);
    if open == 0 {
      return IXML_SUCCESS, cur;
    }
    rc, q := IXML_SYNTAX_ERR, p;
  }

  lemma DocTypeEnd(r: string, open: int)
    requires open == 0 || r == ""
    ensures SkipDocType(r, open) == Scan(open == 0, r)
  {
  }

  lemma DocTypeStep(data: string, cur: nat, open: int)
    requires cur < |data| && open != 0
    ensures var s := SkipDocType(data[cur..], open);
            if data[cur] == '<' then s == SkipDocType(data[cur + 1..], open + 1)
            else if data[cur] == '>' then s == SkipDocType(data[cur + 1..], open - 1)
            else if data[cur] == '\"' then
              var i := Find(data[cur + 1..], "\"");
              if i < 0 then !s.ok else s == SkipDocType(data[cur + i + 2..], open)
            else s == SkipDocType(data[cur + 1..], open)
  {
    assert data[cur..][1..] == data[cur + 1..];
    var i := Find(data[cur + 1..], "\"");
    if i >= 0 {
      Dropped(data, cur, i + 2);
    }
  }

  /** The name loop of Parser_getNextToken. */
  method NameLengthAt(data: string, p: nat, errorChar: ErrorChar) returns (n: nat)
    requires p <= |data|
    ensures n == NameTail(data[p..], errorChar)
  {
    n := 0;
    var d := Utf8ToInt(data[p..], errorChar);
    while IsNameChar(d.code, true)
      invariant p + n <= |data| && d == Utf8ToInt(data[p + n..], errorChar)
      invariant NameTail(data[p..], errorChar) == n + NameTail(data[p + n..], errorChar)
      decreases |data| - p - n
    {
      NameCharCopies(data[p + n..], errorChar);
      Dropped(data, p + n, d.len);
      n := n + d.len;
      d := Utf8ToInt(data[p + n..], errorChar);
    }
  }

  /** The loop that delimits character data in Parser_processContent. */
  method TextLengthAt(data: string, p: nat) returns (n: nat)
    requires p <= |data|
    ensures n == TextLength(data[p..])
  {
    n := 0;
    while p + n < |data| && data[p + n] != '<' && !("]]>" <= data[p + n..])
      invariant p + n <= |data|
      invariant TextLength(data[p..]) == n + TextLength(data[p + n..])
    {
      assert data[p + n..][1..] == data[p + n + 1..];
      n := n + 1;
    }
  }

  /** The loop of Parser_processCDSect. */
  method CDataLengthAt(data: string, p: nat) returns (n: nat)
    requires p <= |data|
    ensures n == CDataLength(data[p..])
  {
    n := 0;
    while p + n < |data| && data[p + n] as int <= 127 && IsXmlChar(data[p + n] as int) && !("]]>" <= data[p + n..])
      invariant p + n <= |data|
      invariant CDataLength(data[p..]) == n + CDataLength(data[p + n..])
    {
      assert data[p + n..][1..] == data[p + n + 1..];
      n := n + 1;
    }
  }

  /** The check of Parser_processAttribute between the cursor and the closing quote. */
  method NoLessThanAt(data: string, p: nat, end: nat) returns (ok: bool)
    requires p <= end <= |data|
    ensures ok == NoLessThan(data[p..end])
  {
    var cur := p;
    while cur < end
      invariant p <= cur <= end + 1
      invariant NoLessThan(data[p..end]) == NoLessThan(if cur <= end then data[cur..end] else "")
      decreases end - cur
    {
      if data[cur] == '<' {
        return false;
      }
      assert data[cur..end][1..] == data[cur + 1..end];
      if data[cur] == '&' {
        if cur + 1 < end {
          assert data[cur..end][2..] == data[cur + 2..end];
        }
        cur := cur + 1;
      }
      cur := cur + 1;
    }
    ok := true;
  }

  // ----- the parser object -----

  /**
   The Parser struct.  The token buffer and the last element name are held as
   their contents, the element stack as a sequence with its top last; `builder`
   holds the document and currentNodePtr.
   */
  class Parser {
    const data: string
    const config: Config
    var curPtr: nat
    var savePtr: nat
    var lastElem: string
    var tokenBuf: string
    var pCurElement: seq<string>
    const builder: DomBuild.DomBuilder
    /** what the nodes from the document down to currentNodePtr hold */
    ghost var currentPath: seq<Frame>
    var state: State
    var bHasTopLevel: bool
    /** not in the C struct: no prefixed name and no xmlns attribute has been read, so that namespaces have had no effect */
    var plain: bool

    ghost predicate Valid()
      reads this
    {
      curPtr <= |data| && savePtr <= |data| && currentPath != []
    }

    /** The nodes hold what the path says. */
    ghost predicate Built()
      reads this, builder, builder.S
    {
      builder.Holds(currentPath)
    }

    /** What scanning reads and writes. */
    ghost function CursorNow(): Cursor
      requires Valid()
      reads this
    {
      Cursor(data[curPtr..], state, lastElem)
    }

    ghost function MachineNow(): Machine
      requires Valid()
      reads this
    {
      Machine(CursorNow(), pCurElement, currentPath, bHasTopLevel, plain)
    }

    /** Parser_init and Parser_readFileOrBuffer, with the empty document of Parser_parseDocument */
    constructor (text: string, config: Config)
      ensures Valid() && data == text && this.config == config && curPtr == 0
      ensures MachineNow() == Start(text) && Built() && fresh(builder) && fresh(builder.S)
    {
      builder := new DomBuild.DomBuilder();
      data, this.config := text, config;
      curPtr, savePtr := 0, 0;
      lastElem, tokenBuf := "", "";
      pCurElement := [];
      currentPath := [Frame(DOCUMENT_NAME, [], [])];
      state := ELEMENT;
      bHasTopLevel, plain := false, true;
      new;
      assert data[0..] == text;
    }

    /** Parser_skipWhiteSpaces */
    method SkipWhiteSpaces()
      requires Valid()
      modifies this`curPtr
      ensures Valid() && data[curPtr..] == SkipWs(old(data[curPtr..]))
    {
      while curPtr < |data| && IsWs(data[curPtr])
        invariant Valid() && SkipWs(data[curPtr..]) == SkipWs(old(data[curPtr..]))
        decreases |data| - curPtr
      {
        assert data[curPtr..][1..] == data[curPtr + 1..];
        curPtr := curPtr + 1;
      }
    }

    /** Parser_skipMisc */
    method SkipMiscHere() returns (rc: ReturnCode)
      requires Valid()
      modifies this`curPtr
      ensures Valid()
      ensures var s := SkipMisc(old(data[curPtr..])); (rc == IXML_SUCCESS <==> s.ok) && data[curPtr..] == s.rest
    {
      hide SkipMisc, StartsIgnoringCase, SkipWs, Find;
      var done := false;
      rc := IXML_SUCCESS;
      while !done && rc == IXML_SUCCESS
        invariant Valid()
        invariant !done && rc == IXML_SUCCESS ==> SkipMisc(data[curPtr..]) == SkipMisc(old(data[curPtr..]))
        invariant done ==> rc == IXML_SUCCESS && SkipMisc(old(data[curPtr..])) == Scan(true, data[curPtr..])
        invariant rc != IXML_SUCCESS ==> SkipMisc(old(data[curPtr..])) == Scan(false, data[curPtr..])
        decreases !done && rc == IXML_SUCCESS, |data| - curPtr
      {
        ghost var r := data[curPtr..];
        MiscStep(r);
        if StartsIgnoringCase(data[curPtr..], "<!--") {
          rc, curPtr := SkipCommentAt(data, curPtr);
        } else if StartsIgnoringCase(data[curPtr..], "<?xml ") || StartsIgnoringCase(data[curPtr..], "<?xml?") {
          rc := IXML_SYNTAX_ERR;
        } else if StartsIgnoringCase(data[curPtr..], "<?") {
          rc, curPtr := SkipStringAt(data, curPtr, "?>");
        } else {
          done := true;
        }
        SkipWhiteSpaces();
      }
    }

    /** Parser_skipProlog */
    method SkipPrologHere() returns (rc: ReturnCode)
      requires Valid()
      modifies this`curPtr
      ensures Valid()
      ensures var s := SkipProlog(old(data[curPtr..])); (rc == IXML_SUCCESS <==> s.ok) && (s.ok ==> data[curPtr..] == s.rest)
    {
      hide SkipMisc, SkipWs, SkipString, SkipDocType;
      SkipWhiteSpaces();
      if "<?xml " <= data[curPtr..] {
        rc, curPtr := SkipStringAt(data, curPtr, "?>");
        SkipWhiteSpaces();
        if rc != IXML_SUCCESS {
          return;
        }
      }
      rc := SkipMiscHere();
      if rc == IXML_SUCCESS && "<!DOCTYPE" <= data[curPtr..] {
        Dropped(data, curPtr, 1);
        curPtr := curPtr + 1;
        rc, curPtr := SkipDocTypeAt(data, curPtr);
      }
      if rc == IXML_SUCCESS {
        rc := SkipMiscHere();
      }
    }

    /** Parser_copyToken: the decoded characters are appended to the token buffer. */
    method CopyTokenHere(src: nat, len: nat) returns (rc: ReturnCode)
      requires Valid() && src + len <= |data|
      modifies this`tokenBuf
      ensures var c := CopyToken(data[src..], len, config.errorChar);
              (rc == IXML_SUCCESS <==> c.ok) && tokenBuf == old(tokenBuf) + c.text
    {
      hide CopyLoop, GetChar;
      if len == 0 {
        return IXML_FAILED;
      }
      ghost var whole := CopyLoop(data[src..], len, config.errorChar);
      var p := src;
      while p < src + len
        invariant src <= p <= |data|
        invariant var rest := CopyLoop(data[p..], src + len - p, config.errorChar);
                  whole.ok == rest.ok && old(tokenBuf) + whole.text == tokenBuf + rest.text
      {
        var d := ReadChar(data[p..], config.errorChar);
        CopyLoopStep(data[p..], src + len - p, config.errorChar);
        if d.code <= 0 {
          return IXML_FAILED;
        }
        Dropped(data, p, d.len);
        if d.len == 1 {
          tokenBuf := tokenBuf + [d.code as char];
        } else {
          tokenBuf := tokenBuf + IntToUtf8(d.code);
        }
        p := p + d.len;
      }
      CopyLoopEnd(data[p..], src + len - p, config.errorChar);
      rc := if p > src + len then IXML_FAILED else IXML_SUCCESS;
    }

    /** The branches of Parser_getNextToken, the cursor being past comments and white space. */
    method TokenLengthHere() returns (tokenLength: nat)
      requires Valid()
      modifies this`savePtr
      ensures Valid() && tokenLength == TokenLength(data[curPtr..], config.errorChar)
      ensures savePtr == if "/>" <= data[curPtr..] then curPtr else old(savePtr)
    {
      hide NameTail, Utf8ToInt, IsNameChar;
      tokenLength := 0;
      if curPtr == |data| {
        return;
      }
      Dropped(data, curPtr, 1);
      if data[curPtr] == '\"' {
        tokenLength := 1;
      } else if data[curPtr] == '\'' {
        tokenLength := 1;
      } else if data[curPtr] == '<' {
        var temp := Utf8ToInt(data[curPtr + 1..], config.errorChar).code;
        if temp == '/' as int {
          tokenLength := 2;
        } else if IsNameChar(temp, false) {
          tokenLength := 1;
        }
      } else if data[curPtr] == '=' {
        tokenLength := 1;
      } else if data[curPtr] == '/' {
        if curPtr + 1 < |data| && data[curPtr + 1] == '>' {
          tokenLength := 2;
          savePtr := curPtr;
        }
      } else if data[curPtr] == '>' {
        tokenLength := 1;
      } else if IsNameChar(Utf8ToInt(data[curPtr..], config.errorChar).code, false) {
        tokenLength := NameLengthAt(data, curPtr, config.errorChar);
      }
    }

    /** Parser_getNextToken: zero is no token. */
    method GetNextTokenHere() returns (tokenLength: nat)
      requires Valid()
      modifies this`curPtr, this`savePtr, this`tokenBuf
      ensures Valid()
      ensures var t := GetNextToken(old(data[curPtr..]), config.errorChar);
              tokenLength == t.len && tokenBuf == t.text && data[curPtr..] == t.rest
              && (t.len > 0 ==> if t.text == "/>" then data[savePtr..] == t.start else savePtr == old(savePtr))
    {
      hide SkipMisc, CopyLoop, TokenLength;
      SlashStart(data[curPtr..], config.errorChar);
      SlashText(data[curPtr..], config.errorChar);
      tokenBuf := "";
      if curPtr == |data| {
        return 0;
      }
      var rc := SkipMiscHere();
      if rc != IXML_SUCCESS {
        return 0;
      }
      tokenLength := TokenLengthHere();
      rc := CopyTokenHere(curPtr, tokenLength);
      if rc != IXML_SUCCESS {
        return 0;
      }
      Dropped(data, curPtr, tokenLength);
      curPtr := curPtr + tokenLength;
    }

    ghost function EnvNow(): Env
      requires Valid()
      reads this
    {
      EnvOf(MachineNow(), config)
    }

    /** A node that was read, seen from the scanner functions. */
    twostate predicate Read(next: Next, rc: ReturnCode, node: NewNode)
      requires old(Valid())
      reads this
    {
      && Valid()
      && pCurElement == old(pCurElement) && currentPath == old(currentPath) && bHasTopLevel == old(bHasTopLevel) && plain == old(plain)
      && match next
         case FileDone => rc == IXML_FILE_DONE && CursorNow() == old(CursorNow())
         case Failed => rc == IXML_FAILED || rc == IXML_SYNTAX_ERR
         case Got(n, cursor) => rc == IXML_SUCCESS && node == n && CursorNow() == cursor
    }

    /** Parser_processCDSect */
    method ProcessCDSectHere() returns (rc: ReturnCode, node: NewNode)
      requires Valid() && "<![CDATA[" <= data[curPtr..]
      modifies this`curPtr
      ensures Valid()
      ensures var next := ProcessCDSect(old(data[curPtr..]));
              if next.Got? then rc == IXML_SUCCESS && node == next.node && data[curPtr..] == next.cursor.rest
              else rc == IXML_SYNTAX_ERR
    {
      hide CDataLength;
      node := Nothing;
      var start := curPtr + 9;
      var n := CDataLengthAt(data, start);
      Dropped(data, curPtr, 9);
      if n > 0 && start + n < |data| {
        assert data[start..][..n] == data[start..start + n];
        node := CData(data[start..start + n]);
        if start + n + 3 <= |data| {
          Dropped(data, start, n + 3);
          curPtr := start + n + 3;
        } else {
          curPtr := |data|;
        }
        rc := IXML_SUCCESS;
      } else {
        rc := IXML_SYNTAX_ERR;
      }
    }

    /** Parser_processContent */
    method ProcessContentHere() returns (rc: ReturnCode, node: NewNode)
      requires Valid() && curPtr < |data|
      modifies this`curPtr, this`savePtr, this`tokenBuf, this`state
      ensures Read(ProcessContent(old(CursorNow()), old(EnvNow())), rc, node)
    {
      hide SkipWs, CopyLoop, TextLength, ContentMarkup;
      node := Nothing;
      rc := IXML_SUCCESS;
      savePtr := curPtr;
      SkipWhiteSpaces();
      if curPtr == |data| {
        return;
      }
      if data[curPtr] == '<' {
        rc, node := ContentMarkupHere();
      } else {
        curPtr := savePtr;
        rc, node := ProcessTextHere();
      }
    }

    /** The branch of Parser_processContent for a cursor on `<`. */
    method ContentMarkupHere() returns (rc: ReturnCode, node: NewNode)
      requires Valid() && curPtr < |data| && data[curPtr] == '<'
      modifies this`curPtr, this`state
      ensures Valid()
      ensures match ContentMarkup(old(CursorNow()))
              case Got(n, cursor) => rc == IXML_SUCCESS && node == n && CursorNow() == cursor
              case _ => rc == IXML_SYNTAX_ERR
    {
      hide SkipComment, SkipPI, ProcessCDSect;
      node := Nothing;
      rc := IXML_SUCCESS;
      if "<![CDATA[" <= data[curPtr..] {
        rc, node := ProcessCDSectHere();
      } else if "<!--" <= data[curPtr..] {
        rc, curPtr := SkipCommentAt(data, curPtr);
      } else if "<?" <= data[curPtr..] {
        rc, curPtr := SkipPIAt(data, curPtr);
      } else {
        state := ELEMENT;
      }
    }

    /** The last branch of Parser_processContent. */
    method ProcessTextHere() returns (rc: ReturnCode, node: NewNode)
      requires Valid()
      modifies this`curPtr, this`tokenBuf
      ensures Valid()
      ensures var r := old(data[curPtr..]); var n := TextLength(r); var copy := CopyToken(r, n, config.errorChar);
              if "]]>" <= r[n..] || !copy.ok then rc == IXML_SYNTAX_ERR
              else rc == IXML_SUCCESS && node == Text(copy.text) && data[curPtr..] == r[n..]
    {
      hide CopyLoop, TextLength;
      node := Nothing;
      var n := TextLengthAt(data, curPtr);
      Dropped(data, curPtr, n);
      if "]]>" <= data[curPtr + n..] {
        return IXML_SYNTAX_ERR, node;
      }
      tokenBuf := "";
      rc := CopyTokenHere(curPtr, n);
      if rc != IXML_SUCCESS {
        return IXML_SYNTAX_ERR, node;
      }
      node := Text(tokenBuf);
      curPtr := curPtr + n;
    }

    /** Parser_processSTag */
    method ProcessSTagHere() returns (rc: ReturnCode, node: NewNode)
      requires Valid()
      modifies this`curPtr, this`savePtr, this`tokenBuf, this`lastElem, this`state
      ensures Read(ProcessSTag(old(CursorNow()), old(EnvNow())), rc, node)
    {
      hide GetNextToken;
      node := Nothing;
      var len := GetNextTokenHere();
      if len == 0 {
        return IXML_SYNTAX_ERR, node;
      }
      var name := tokenBuf;
      lastElem := name;
      savePtr := curPtr;
      len := GetNextTokenHere();
      if len == 0 {
        return IXML_SYNTAX_ERR, node;
      }
      if tokenBuf == "/>" {
        state := ELEMENT;
        curPtr := savePtr;
      } else if tokenBuf == ">" {
        state := CONTENT;
      } else {
        state := ATTRIBUTE;
        curPtr := savePtr;
      }
      rc, node := IXML_SUCCESS, StartTag(name);
    }

    /** Parser_processETag */
    method ProcessETagHere() returns (rc: ReturnCode, node: NewNode)
      requires Valid()
      modifies this`curPtr, this`savePtr, this`tokenBuf
      ensures Read(ProcessETag(old(CursorNow()), old(EnvNow())), rc, node)
    {
      hide GetNextToken, SkipWs;
      node := Nothing;
      var len := GetNextTokenHere();
      if len == 0 {
        return IXML_SYNTAX_ERR, node;
      }
      var name := tokenBuf;
      SkipWhiteSpaces();
      len := GetNextTokenHere();
      if len == 0 || tokenBuf != ">" {
        return IXML_SYNTAX_ERR, node;
      }
      rc, node := IXML_SUCCESS, EndTag(name);
    }

    /** Parser_processAttribute; the token buffer holds the name. */
    method ProcessAttributeHere() returns (rc: ReturnCode, node: NewNode)
      requires Valid()
      modifies this`curPtr, this`savePtr, this`tokenBuf, this`state
      ensures Read(ProcessAttribute(old(tokenBuf), old(CursorNow()), old(EnvNow())), rc, node)
    {
      hide GetNextToken, ProcessAttributeValue, IsNameChar, Utf8ToInt;
      node := Nothing;
      var name := tokenBuf;
      if !IsNameChar(Utf8ToInt(name, config.errorChar).code, false) {
        return IXML_SYNTAX_ERR, node;
      }
      var len := GetNextTokenHere();
      if len == 0 || tokenBuf[0] != '=' {
        return IXML_SYNTAX_ERR, node;
      }
      len := GetNextTokenHere();
      if len == 0 || (tokenBuf[0] != '\"' && tokenBuf[0] != '\'') {
        return IXML_SYNTAX_ERR, node;
      }
      rc, node := ProcessValueHere(name);
    }

    /** Parser_processAttribute once the opening quote is in the token buffer. */
    method ProcessValueHere(name: string) returns (rc: ReturnCode, node: NewNode)
      requires Valid() && tokenBuf != ""
      modifies this`curPtr, this`savePtr, this`tokenBuf, this`state
      ensures Read(ProcessAttributeValue(name, old(tokenBuf), old(CursorNow()), old(EnvNow())), rc, node)
    {
      hide GetNextToken, Find, CopyLoop, NoLessThan, AttributeEnd, SkipWs;
      node := Nothing;
      var legal;
      legal := CopyValueHere();
      if !legal {
        return IXML_SYNTAX_ERR, node;
      }
      var value := tokenBuf;
      NamespaceOutcome(old(MachineNow()), config, data[curPtr..], name, value);
      if !((plain && IsPlainAttribute(name)) || config.namespaceOutcome(data[curPtr..], name, value)) {
        return IXML_FAILED, node;
      }
      rc, node := AttributeEndHere(name, value);
    }

    /** The value is copied to the token buffer, and the cursor goes past the closing quote. */
    method CopyValueHere() returns (ok: bool)
      requires Valid() && tokenBuf != ""
      modifies this`curPtr, this`tokenBuf
      ensures Valid()
      ensures var r := old(data[curPtr..]); var end := Find(r, old(tokenBuf));
              if end < 0 || !NoLessThan(r[..end]) then !ok
              else
                var copy := if end > 0 then CopyToken(r, end, config.errorChar) else Copied(true, "");
                ok == copy.ok && (ok ==> tokenBuf == copy.text && data[curPtr..] == r[end + 1..])
    {
      hide Find, CopyLoop, NoLessThan;
      var end := Find(data[curPtr..], tokenBuf);
      if end < 0 {
        return false;
      }
      assert data[curPtr..][..end] == data[curPtr..curPtr + end];
      ok := NoLessThanAt(data, curPtr, curPtr + end);
      if !ok {
        return;
      }
      tokenBuf := "";
      if end != 0 {
        var rc := CopyTokenHere(curPtr, end);
        if rc != IXML_SUCCESS {
          return false;
        }
      }
      Dropped(data, curPtr, end + 1);
      curPtr := curPtr + end + 1;
    }

    /** The look ahead at the end of Parser_processAttribute. */
    method AttributeEndHere(name: string, value: string) returns (rc: ReturnCode, node: NewNode)
      requires Valid()
      modifies this`curPtr, this`savePtr, this`tokenBuf, this`state
      ensures Valid()
      ensures match AttributeEnd(name, value, old(CursorNow()), old(EnvNow()))
              case Got(n, cursor) => rc == IXML_SUCCESS && node == n && CursorNow() == cursor
              case _ => rc == IXML_SYNTAX_ERR || rc == IXML_FAILED
    {
      hide GetNextToken;
      node := Nothing;
      savePtr := curPtr;
      var len := GetNextTokenHere();
      if len == 0 {
        return IXML_SYNTAX_ERR, node;
      }
      if tokenBuf == "<" {
        return IXML_FAILED, node;
      } else if tokenBuf != ">" {
        curPtr := savePtr;
      } else {
        state := CONTENT;
      }
      rc, node := IXML_SUCCESS, Attribute(name, value);
    }

    /** Parser_getNextNode */
    method GetNextNodeHere() returns (rc: ReturnCode, node: NewNode)
      requires Valid()
      modifies this`curPtr, this`savePtr, this`tokenBuf, this`lastElem, this`state
      ensures Read(GetNextNode(old(CursorNow()), old(EnvNow())), rc, node)
    {
      hide GetNextToken, SkipWs, ProcessContent, ProcessSTag, ProcessETag, ProcessAttribute;
      node := Nothing;
      if curPtr == |data| {
        return IXML_FILE_DONE, node;
      }
      if state == CONTENT {
        rc, node := ProcessContentHere();
        return;
      }
      SkipWhiteSpaces();
      var len := GetNextTokenHere();
      if len == 0 && pCurElement == [] && curPtr == |data| {
        return IXML_SUCCESS, node;
      } else if tokenBuf == "" {
        return IXML_SYNTAX_ERR, node;
      }
      if tokenBuf[0] == '>' {
        return IXML_SUCCESS, node;
      } else if tokenBuf == "</" {
        rc, node := ProcessETagHere();
      } else if tokenBuf[0] == '<' {
        rc, node := ProcessSTagHere();
      } else if tokenBuf == "/>" {
        if lastElem == "" {
          return IXML_SYNTAX_ERR, node;
        }
        return IXML_SUCCESS, EndTag(lastElem);
      } else if state == ATTRIBUTE && pCurElement != [] {
        rc, node := ProcessAttributeHere();
      } else {
        return IXML_SYNTAX_ERR, node;
      }
    }

    // ----- building the document -----

    /** What a change of the document under construction amounts to on the machine. */
    ghost predicate Follows(before: Machine, turn: Turn, rc: ReturnCode)
      reads this
    {
      match turn
      case Running(next) => rc == IXML_SUCCESS && Valid() && MachineNow() == next
      case Stopped(Aborted) => rc == ASSERTION_FAILED
      case Stopped(_) => rc == IXML_SYNTAX_ERR
    }

    /** Parser_processElementName and Parser_pushElement */
    method ProcessElementName(name: string) returns (rc: ReturnCode)
      requires Valid() && Built()
      modifies this`bHasTopLevel, this`currentPath, this`pCurElement, this`plain, this`savePtr, builder, builder.S
      ensures Follows(old(MachineNow()), Open(old(MachineNow()), name), rc)
      ensures rc == IXML_SUCCESS ==> Built() && fresh(builder.S - old(builder.S)) && builder.document == old(builder.document)
    {
      hide DomBuild.DomBuilder.Holds;
      if bHasTopLevel {
        if pCurElement == [] {
          return IXML_SYNTAX_ERR;
        }
      } else {
        bHasTopLevel := true;
      }
      savePtr := curPtr;
      builder.OpenElement(name, currentPath);
      currentPath := currentPath + [Frame(name, [], [])];
      pCurElement := pCurElement + [name];
      plain := plain && !HasColon(name);
      rc := IXML_SUCCESS;
    }

    /** The text and CDATA branches of the loop: ixmlNode_appendChild refuses the document as a parent. */
    method AppendLeafNode(leaf: Tree) returns (rc: ReturnCode)
      requires Valid() && Built() && !leaf.Element?
      modifies this`currentPath, builder, builder.S
      ensures Follows(old(MachineNow()), AppendLeaf(old(MachineNow()), leaf), rc)
      ensures rc == IXML_SUCCESS ==> Built() && fresh(builder.S - old(builder.S)) && builder.document == old(builder.document)
    {
      hide DomBuild.DomBuilder.Holds;
      var ok := builder.AppendLeaf(leaf, currentPath);
      if !ok {
        return IXML_SYNTAX_ERR;
      }
      ghost var top := currentPath[|currentPath| - 1];
      currentPath := currentPath[..|currentPath| - 1] + [top.(kids := top.kids + [leaf])];
      rc := IXML_SUCCESS;
    }

    /** Parser_processAttributeName */
    method ProcessAttributeName(name: string, value: string) returns (rc: ReturnCode)
      requires Valid() && Built()
      modifies this`currentPath, this`plain, builder.S
      ensures Follows(old(MachineNow()), AddAttribute(old(MachineNow()), name, value), rc)
      ensures rc == IXML_SUCCESS ==> Built()
    {
      hide DomBuild.DomBuilder.Holds, HasAttr;
      var duplicate := builder.IsDuplicateAttribute(name, currentPath);
      if duplicate {
        return IXML_SYNTAX_ERR;
      }
      builder.AddAttribute(name, value, currentPath);
      ghost var top := currentPath[|currentPath| - 1];
      currentPath := currentPath[..|currentPath| - 1] + [top.(attrs := top.attrs + [Attr(name, value)])];
      plain := plain && IsPlainAttribute(name);
      rc := IXML_SUCCESS;
    }

    /** Parser_eTagVerification with Parser_isValidEndElement and Parser_popElement, then the state for content. */
    method ETagVerification(name: string) returns (rc: ReturnCode)
      requires Valid() && Built()
      modifies this`currentPath, this`pCurElement, this`state, builder
      ensures Follows(old(MachineNow()), Close(old(MachineNow()), name), rc)
      ensures rc == IXML_SUCCESS ==> Built() && builder.S == old(builder.S) && builder.document == old(builder.document)
    {
      hide DomBuild.DomBuilder.Holds;
      if pCurElement == [] {
        return ASSERTION_FAILED;
      }
      if pCurElement[|pCurElement| - 1] == name {
        pCurElement := pCurElement[..|pCurElement| - 1];
      } else {
        return IXML_SYNTAX_ERR;
      }
      var ok := builder.Leave(name, currentPath);
      if !ok {
        return IXML_SYNTAX_ERR;
      }
      ghost var n := |currentPath|;
      ghost var done, parent := currentPath[n - 1], currentPath[n - 2];
      currentPath := currentPath[..n - 2] + [parent.(kids := parent.kids + [Element(done.nodeName, done.attrs, done.kids)])];
      state := CONTENT;
      rc := IXML_SUCCESS;
    }

    /** The switch of the loop on the node that was read. */
    method Build(node: NewNode) returns (rc: ReturnCode)
      requires Valid() && Built()
      modifies this`currentPath, this`pCurElement, this`state, this`plain, this`bHasTopLevel, this`savePtr, builder, builder.S
      ensures Follows(old(MachineNow()), Apply(old(MachineNow()), node), rc)
      ensures rc == IXML_SUCCESS ==> Built() && fresh(builder.S - old(builder.S)) && builder.document == old(builder.document)
    {
      hide Open, AddAttribute, AppendLeaf, Close, DomBuild.DomBuilder.Holds;
      match node {
        case Nothing => rc := IXML_SUCCESS;
        case StartTag(name) => rc := ProcessElementName(name);
        case Text(value) => rc := AppendLeafNode(TextNode(value));
        case CData(value) => rc := AppendLeafNode(CDataNode(value));
        case Attribute(name, value) => rc := ProcessAttributeName(name, value);
        case EndTag(name) => rc := ETagVerification(name);
      }
    }

    /**
     One turn of the loop of Parser_parseDocument.  Before and after it the element
     stack spells the names of the nodes from currentNodePtr up to, not
     including, the document.
     */
    method ReadAndBuild() returns (rc: ReturnCode)
      requires Valid() && Built() && Inv(MachineNow())
      modifies this`curPtr, this`savePtr, this`tokenBuf, this`lastElem, this`state, this`currentPath, this`pCurElement,
               this`plain, this`bHasTopLevel, builder, builder.S
      ensures rc == IXML_FILE_DONE ==> curPtr == |data|
      ensures rc == IXML_FILE_DONE || rc == IXML_SUCCESS ==>
                && Valid() && Built() && Inv(MachineNow()) && fresh(builder.S - old(builder.S)) && builder.document == old(builder.document)
                && Run(MachineNow(), config) == Run(old(MachineNow()), config)
      ensures rc == IXML_SUCCESS ==>
                |data| - curPtr < |data| - old(curPtr) || (curPtr == old(curPtr) && Weight(state) < Weight(old(state)))
      ensures rc != IXML_FILE_DONE && rc != IXML_SUCCESS ==>
                Run(old(MachineNow()), config) == if rc == ASSERTION_FAILED then Aborted else Rejected
    {
      hide GetNextNode, Apply, Run, Inv, DomBuild.DomBuilder.Holds;
      ghost var m := MachineNow();
      RunUnfolds(m, config);
      TurnKeepsInv(m, config);
      var node;
      rc, node := GetNextNodeHere();
      if rc == IXML_FILE_DONE {
      } else if rc != IXML_SUCCESS {
        rc := IXML_FAILED;
      } else {
        rc := Build(node);
      }
    }

    /** Parser_parseDocument: an accepted document holds what the state machine says, on nodes. */
    method ParseDocument() returns (rc: ReturnCode, retDoc: Dom.Node?)
      requires Valid() && MachineNow() == Start(data) && Built()
      modifies this, builder, builder.S
      ensures var outcome := Parse(data, config);
              if outcome.Accepted? then
                rc == IXML_SUCCESS && retDoc == builder.document && builder.Holds([Frame(DOCUMENT_NAME, [], outcome.kids)])
              else
                rc != IXML_SUCCESS && retDoc == null && (outcome.Aborted? <==> rc == ASSERTION_FAILED)
      ensures rc == IXML_SUCCESS ==> fresh(builder.S - old(builder.S))
    {
      hide GetNextNode, Apply, SkipProlog, Run, Inv, DomBuild.DomBuilder.Holds;
      retDoc := null;
      rc := SkipPrologHere();
      if rc != IXML_SUCCESS {
        rc := IXML_SYNTAX_ERR;
        return;
      }
      ghost var start := MachineNow();
      assert start == Start(SkipProlog(data).rest);
      StartInv(SkipProlog(data).rest);
      var done := false;
      while !done
        invariant Valid() && Built() && Inv(MachineNow())
        invariant Run(start, config) == Run(MachineNow(), config)
        invariant done ==> curPtr == |data|
        invariant fresh(builder.S - old(builder.S))
        decreases !done, |data| - curPtr, Weight(state)
      {
        rc := ReadAndBuild();
        if rc == IXML_FILE_DONE {
          done := true;
        } else if rc != IXML_SUCCESS {
          return;
        }
      }
      AtFileEnd(MachineNow(), config);
      if pCurElement != [] {
        rc := IXML_SYNTAX_ERR;
        return;
      }
      OnlyTheDocument(MachineNow());
      rc, retDoc := IXML_SUCCESS, builder.document;
    }
  }

  lemma TurnKeepsInv(m: Machine, config: Config)
    requires Inv(m) && m.path != []
    ensures var next := GetNextNode(m.cursor, EnvOf(m, config));
            next.Got? ==>
              var turn := Apply(m.(cursor := next.cursor), next.node); turn.Running? ==> Inv(turn.machine)
  {
    hide GetNextNode, Apply, Inv;
    StepKeepsInv(m, config);
  }

  /** With no element open the path is the document alone. */
  lemma OnlyTheDocument(m: Machine)
    requires Inv(m) && m.stack == []
    ensures |m.path| == 1 && m.path == [Frame(DOCUMENT_NAME, [], m.path[0].kids)]
  {
  }

  lemma NamespaceOutcome(m: Machine, config: Config, left: string, name: string, value: string)
    ensures EnvOf(m, config).namespaceOk(left, name, value)
         == ((m.plain && IsPlainAttribute(name)) || config.namespaceOutcome(left, name, value))
  {
  }

  lemma MiscStep(r: string)
    ensures SkipMisc(r)
         == if StartsIgnoringCase(r, "<!--") then
              var c := SkipComment(r);
              if c.ok then SkipMisc(SkipWs(c.rest)) else Scan(false, SkipWs(c.rest))
            else if StartsIgnoringCase(r, "<?xml ") || StartsIgnoringCase(r, "<?xml?") then Scan(false, SkipWs(r))
            else if StartsIgnoringCase(r, "<?") then
              var p := SkipString(r, "?>");
              if p.ok then SkipMisc(SkipWs(p.rest)) else Scan(false, SkipWs(p.rest))
            else Scan(true, SkipWs(r))
  {
  }

  /** One turn of the loop, on the run. */
  lemma RunUnfolds(m: Machine, config: Config)
    requires m.path != []
    ensures var next := GetNextNode(m.cursor, EnvOf(m, config));
            && (next.FileDone? ==> m.cursor.rest == "")
            && (next.Failed? ==> Run(m, config) == Rejected)
            && (next.Got? ==> RunGoesOn(m, Apply(m.(cursor := next.cursor), next.node), config))
  {
    hide GetNextNode, Apply;
    FileDoneAtEnd(m.cursor, EnvOf(m, config));
    StepProgress(m, config);
    match GetNextNode(m.cursor, EnvOf(m, config)) {
      case Got(node, cursor) => ApplyNeverAccepts(m.(cursor := cursor), node);
      case _ =>
    }
  }

  /** The run is decided by the turn, or goes on from the machine it leads to, which is nearer to the end. */
  predicate RunGoesOn(m: Machine, turn: Turn, config: Config)
    requires m.path != []
  {
    if turn.Stopped? then !turn.outcome.Accepted? && Run(m, config) == turn.outcome
    else
      && turn.machine.path != [] && Run(m, config) == Run(turn.machine, config)
      && (|turn.machine.cursor.rest| < |m.cursor.rest|
          || (turn.machine.cursor.rest == m.cursor.rest && m.cursor.state == CONTENT && turn.machine.cursor.state == ELEMENT))
  }

  lemma AtFileEnd(m: Machine, config: Config)
    requires m.path != [] && m.cursor.rest == ""
    ensures Run(m, config) == if m.stack == [] then Accepted(m.path[0].kids) else Rejected
  {
  }
}
