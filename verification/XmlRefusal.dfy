/**
 What the parser refuses: the well-formedness constraints of XML 1.0 that it checks
 inside tags, character data, comments, instructions and sections.
 */
module XmlRefusal {
  import opened Utf8
  import opened XmlNames
  import opened XmlReference
  import opened XmlText
  import opened XmlScan
  import opened XmlTokens
  import opened XmlTree
  import opened XmlMachine
  import opened XmlRead
  import opened XmlRoundTrip
  import opened XmlSpelling

  /** When no node can be read the document is refused. */
  lemma NoNodeIsRejected(m: Machine, config: Config)
    requires m.path != [] && GetNextNode(m.cursor, EnvOf(m, config)) == Failed
    ensures Run(m, config) == Rejected
  {
    hide GetNextNode;
  }

  // ----- attribute values -----

  /** Up to the value of an attribute, in any spelling. */
  ghost predicate AtValue(m: Machine, name: string, quote: char, tail: string) {
    && m.path != [] && m.stack != [] && m.cursor.state == ATTRIBUTE
    && IsName(name) && (quote == '\"' || quote == '\'')
    && exists before, beforeEq, afterEq ::
         AllWs(before) && AllWs(beforeEq) && AllWs(afterEq) && m.cursor.rest == ToValue(before, name, beforeEq, afterEq, quote, tail)
  }

  function ToValue(before: string, name: string, beforeEq: string, afterEq: string, quote: char, tail: string): string {
    before + (name + (beforeEq + ("=" + (afterEq + ([quote] + tail)))))
  }

  lemma RunToValue(m: Machine, config: Config, name: string, quote: char, tail: string)
    requires AtValue(m, name, quote, tail)
    ensures m.path != []
    ensures ProcessAttributeValue(name, [quote], m.cursor.(rest := tail), EnvOf(m, config)) == Failed ==> Run(m, config) == Rejected
  {
    hide GetNextNode, ProcessAttributeValue, AllWs, IsName, Run;
    var before, beforeEq, afterEq :|
      AllWs(before) && AllWs(beforeEq) && AllWs(afterEq) && m.cursor.rest == ToValue(before, name, beforeEq, afterEq, quote, tail);
    ReachValue(m.cursor, EnvOf(m, config), before, name, beforeEq, afterEq, quote, tail);
    if ProcessAttributeValue(name, [quote], m.cursor.(rest := tail), EnvOf(m, config)) == Failed {
      NoNodeIsRejected(m, config);
    }
  }

  /** A value that is not closed. */
  lemma UnclosedValue(m: Machine, config: Config, name: string, quote: char, tail: string)
    requires AtValue(m, name, quote, tail) && forall c | c in tail :: c != quote
    ensures Run(m, config) == Rejected
  {
    hide Run, AtValue;
    NeverFound(tail, quote);
    RunToValue(m, config, name, quote, tail);
  }

  lemma {:induction false} NeverFound(r: string, q: char)
    requires forall c | c in r :: c != q
    ensures Find(r, [q]) < 0
  {
    if r != "" {
      assert r[0] in r;
      assert forall c | c in r[1..] :: c in r;
      NeverFound(r[1..], q);
    }
  }

  /** A value with `<` in it. */
  lemma LessThanInValue(m: Machine, config: Config, name: string, quote: char, pre: string, post: string, rest: string)
    requires AtValue(m, name, quote, pre + "<" + post + ([quote] + rest))
    requires (forall c | c in pre :: c != quote && c != '&') && (forall c | c in post :: c != quote)
    ensures Run(m, config) == Rejected
  {
    hide Run, AtValue, CopyLoop;
    var raw := pre + "<" + post;
    QuoteKind(m, name, quote, raw + ([quote] + rest));
    FindChar(raw, quote, rest);
    LessThanSeen(pre, post);
    assert (raw + ([quote] + rest))[..|raw|] == raw;
    RunToValue(m, config, name, quote, raw + ([quote] + rest));
  }

  lemma QuoteKind(m: Machine, name: string, quote: char, tail: string)
    requires AtValue(m, name, quote, tail)
    ensures quote == '\"' || quote == '\''
  {
    hide AllWs, IsName;
  }

  lemma {:induction false} LessThanSeen(pre: string, post: string)
    requires forall c | c in pre :: c != '&'
    ensures !NoLessThan(pre + "<" + post)
  {
    var v := pre + "<" + post;
    if pre == "" {
      assert v[0] == '<';
    } else {
      assert v[0] == pre[0] && pre[0] in pre;
      assert v[1..] == pre[1..] + "<" + post;
      assert forall c | c in pre[1..] :: c in pre;
      LessThanSeen(pre[1..], post);
    }
  }

  // ----- ampersands -----

  /** An ampersand that begins neither one of the five entities nor a numeric reference. */
  predicate BareAmpersand(r: string) {
    && r != "" && r[0] == '&'
    && !StartsIgnoringCase(r, "&quot;") && !StartsIgnoringCase(r, "&lt;") && !StartsIgnoringCase(r, "&gt;")
    && !StartsIgnoringCase(r, "&apos;") && !StartsIgnoringCase(r, "&amp;") && !StartsIgnoringCase(r, "&#")
  }

  /** Copying fails on it in strict mode; in relaxed mode it stands for itself. */
  lemma BareAmpersandIsCopied(r: string, n: int, errorChar: ErrorChar)
    requires BareAmpersand(r) && 0 < n <= |r|
    ensures errorChar == 0 ==> !CopyLoop(r, n, errorChar).ok
    ensures errorChar != 0 ==>
              var rest := CopyLoop(r[1..], n - 1, errorChar); CopyLoop(r, n, errorChar) == Copied(rest.ok, "&" + rest.text)
  {
    hide Reference, Utf8ToInt;
    ShorterPrefix(r, "&#x", 2);
    CopyLoopStep(r, n, errorChar);
  }

  /** Digits that do not end in a semicolon, or do not denote an XML character, count as a bare ampersand. */
  lemma BadReferenceIsCopied(digits: string, hex: bool, after: string, n: int, errorChar: ErrorChar)
    requires AllDigits(digits, hex) && after != "" && !IsDigit(after[0], hex) && (!hex && digits == "" ==> Lower(after[0]) != 'x')
    requires after[0] == ';' ==> !IsXmlChar(Wrap(Value(digits, hex)))
    requires var r := (if hex then "&#x" else "&#") + digits + after; 0 < n <= |r|
    ensures var r := (if hex then "&#x" else "&#") + digits + after;
            if errorChar == 0 then !CopyLoop(r, n, errorChar).ok
            else var rest := CopyLoop(r[1..], n - 1, errorChar); CopyLoop(r, n, errorChar) == Copied(rest.ok, "&" + rest.text)
  {
    hide GetChar, CopyLoop, Value;
    BadReferenceIsRead(digits, hex, after, errorChar);
    CopyLoopStep((if hex then "&#x" else "&#") + digits + after, n, errorChar);
  }

  lemma BadReferenceIsRead(digits: string, hex: bool, after: string, errorChar: ErrorChar)
    requires AllDigits(digits, hex) && after != "" && !IsDigit(after[0], hex) && (!hex && digits == "" ==> Lower(after[0]) != 'x')
    requires after[0] == ';' ==> !IsXmlChar(Wrap(Value(digits, hex)))
    ensures var r := (if hex then "&#x" else "&#") + digits + after;
            GetChar(r, errorChar) == if errorChar == 0 then Decoded(-1, 0) else Decoded('&' as int, 1)
  {
    hide Reference, Value, Utf8ToInt, Wrap;
    var mark := if hex then "&#x" else "&#";
    var r := mark + digits + after;
    NoReference(mark, digits, hex, after);
    assert r[0] == '&' && r[1] == '#';
    assert Lower('#') == '#' && Lower("&quot;"[1]) == 'q' && Lower("&lt;"[1]) == 'l' && Lower("&gt;"[1]) == 'g';
    assert Lower("&apos;"[1]) == 'a' && Lower("&amp;"[1]) == 'a';
    if hex {
      assert r[2] == 'x';
    } else {
      assert r[2] == (digits + after)[0];
      assert Lower(r[2]) != 'x';
    }
  }

  lemma NoReference(mark: string, digits: string, hex: bool, after: string)
    requires AllDigits(digits, hex) && after != "" && !IsDigit(after[0], hex)
    requires after[0] == ';' ==> !IsXmlChar(Wrap(Value(digits, hex)))
    ensures Reference(mark + digits + after, |mark|, hex).code == -1
  {
    hide XmlReference.Digits, Sum, Value, Wrap;
    var r := mark + digits + after;
    assert r[|mark|..] == digits + after;
    DigitsOf(digits, after, hex);
    assert r[|mark|..|mark| + |digits|] == digits;
    SumIsWrapped(digits, hex);
  }

  /** A control character is an error in strict mode, and is replaced in relaxed mode. */
  lemma ControlIsCopied(r: string, n: int, errorChar: ErrorChar)
    requires r != "" && 0 < r[0] as int < 0x20 && r[0] !in "\t\r\n" && 0 < n <= |r|
    ensures errorChar <= 0 ==> !CopyLoop(r, n, errorChar).ok
    ensures errorChar > 0 ==>
              var rest := CopyLoop(r[1..], n - 1, errorChar);
              CopyLoop(r, n, errorChar) == Copied(rest.ok, [errorChar as char] + rest.text)
  {
    hide GetChar, CopyLoop;
    ControlIsRead(r, errorChar);
    CopyLoopStep(r, n, errorChar);
  }

  lemma ControlIsRead(r: string, errorChar: ErrorChar)
    requires r != "" && 0 < r[0] as int < 0x20 && r[0] !in "\t\r\n"
    ensures errorChar <= 0 ==> GetChar(r, errorChar).code <= 0
    ensures errorChar > 0 ==> GetChar(r, errorChar) == Decoded(errorChar, 1)
  {
    hide Reference;
  }

  /** How many continuation bytes a lead byte announces; none for a byte that cannot lead. */
  function Announced(b: int): nat {
    if 0xC0 <= b <= 0xDF then 1 else if 0xE0 <= b <= 0xEF then 2 else if 0xF0 <= b <= 0xF7 then 3
    else if 0xF8 <= b <= 0xFB then 4 else if 0xFC <= b <= 0xFD then 5 else 0
  }

  /** A byte above ASCII that leads nothing, or is followed by fewer continuation bytes than it announces. */
  predicate BrokenSequence(r: string) {
    && r != "" && 0x80 <= r[0] as int <= 0xFF
    && var n := Announced(r[0] as int); n == 0 || exists i | 1 <= i <= n :: |r| <= i || !(0x80 <= r[i] as int <= 0xBF)
  }

  /** Such a byte is an error in strict mode, and is replaced in relaxed mode. */
  lemma BrokenSequenceIsCopied(r: string, n: int, errorChar: ErrorChar)
    requires BrokenSequence(r) && 0 < n <= |r|
    ensures errorChar <= 0 ==> !CopyLoop(r, n, errorChar).ok
    ensures errorChar > 0 ==>
              var rest := CopyLoop(r[1..], n - 1, errorChar);
              CopyLoop(r, n, errorChar) == Copied(rest.ok, [errorChar as char] + rest.text)
  {
    hide GetChar, CopyLoop;
    BrokenSequenceIsRead(r, errorChar);
    CopyLoopStep(r, n, errorChar);
  }

  lemma BrokenSequenceIsRead(r: string, errorChar: ErrorChar)
    requires BrokenSequence(r)
    ensures errorChar <= 0 ==> GetChar(r, errorChar).code <= 0
    ensures errorChar > 0 ==> GetChar(r, errorChar) == Decoded(errorChar, 1)
  {
    hide Reference;
    assert !IsCont(At(r, 1)) || !IsCont(At(r, 2)) || !IsCont(At(r, 3)) || !IsCont(At(r, 4)) || !IsCont(At(r, 5)) || Announced(r[0] as int) == 0;
  }

  /** A bare ampersand in a value, in strict mode. */
  lemma BareAmpersandInValue(m: Machine, config: Config, name: string, quote: char, pieces: seq<Piece>, bare: string, rest: string)
    requires AllOk(pieces) && BareAmpersand(bare + ([quote] + rest)) && bare != "" && config.errorChar == 0
    requires AtValue(m, name, quote, Written(pieces) + (bare + ([quote] + rest)))
    requires forall c | c in Written(pieces) + bare :: c != quote
    ensures Run(m, config) == Rejected
  {
    hide Run, AtValue, CopyLoop, Written, Meant, AllOk, BareAmpersand, NoLessThan, Find, ProcessAttributeValue;
    var tail, raw := bare + ([quote] + rest), Written(pieces) + bare;
    FindChar(raw, quote, rest);
    assert raw + ([quote] + rest) == Written(pieces) + tail;
    WrittenThenMore(pieces, tail, |bare|, 0);
    BareAmpersandIsCopied(tail, |bare|, 0);
    ValueNotCopied(m.cursor.(rest := Written(pieces) + tail), EnvOf(m, config), name, quote, |raw|);
    RunToValue(m, config, name, quote, Written(pieces) + tail);
  }

  lemma ValueNotCopied(c: Cursor, env: Env, name: string, quote: char, n: nat)
    requires Find(c.rest, [quote]) == n > 0 && n <= |c.rest| && !CopyLoop(c.rest, n, env.errorChar).ok
    ensures ProcessAttributeValue(name, [quote], c, env) == Failed
  {
    hide CopyLoop, Find, NoLessThan;
  }

  // ----- content -----

  /** A bare ampersand in character data, in strict mode. */
  lemma BareAmpersandInText(m: Machine, config: Config, pieces: seq<Piece>, bare: string)
    requires m.path != [] && m.cursor.state == CONTENT && m.cursor.rest == Written(pieces) + bare
    requires AllOk(pieces) && BareAmpersand(bare) && config.errorChar == 0
    requires forall c | c in Written(pieces) :: c != '<'
    requires forall i | 0 <= i <= |Written(pieces)| :: !("]]>" <= m.cursor.rest[i..])
    ensures Run(m, config) == Rejected
  {
    hide Run, CopyLoop, Written, Meant, PieceOk, SkipWs, TextLength;
    var raw, r := Written(pieces), m.cursor.rest;
    TextGoesOn(raw, bare);
    var n := TextLength(r);
    NotMarkup(raw, bare);
    WrittenThenMore(pieces, bare, n - |raw|, 0);
    BareAmpersandIsCopied(bare, n - |raw|, 0);
    NoNodeIsRejected(m, config);
  }

  lemma {:induction false} TextGoesOn(raw: string, after: string)
    requires (forall c | c in raw :: c != '<') && after != "" && after[0] != '<'
    requires forall i | 0 <= i <= |raw| :: !("]]>" <= (raw + after)[i..])
    ensures TextLength(raw + after) > |raw|
  {
    var r := raw + after;
    assert r[0..] == r;
    if raw == "" {
      assert r == after;
    } else {
      assert r[0] == raw[0] && raw[0] in raw;
      assert r[1..] == raw[1..] + after;
      assert forall c | c in raw[1..] :: c in raw;
      forall i | 0 <= i <= |raw[1..]| ensures !("]]>" <= (raw[1..] + after)[i..]) {
        assert (raw[1..] + after)[i..] == r[i + 1..];
      }
      TextGoesOn(raw[1..], after);
    }
  }

  lemma {:induction false} NotMarkup(raw: string, after: string)
    requires (forall c | c in raw :: c != '<') && after != "" && after[0] != '<' && !IsWs(after[0])
    ensures SkipWs(raw + after) != "" && SkipWs(raw + after)[0] != '<'
  {
    var r := raw + after;
    if raw == "" {
      assert r == after;
    } else {
      assert r[0] == raw[0] && raw[0] in raw;
      assert r[1..] == raw[1..] + after;
      assert forall c | c in raw[1..] :: c in raw;
      NotMarkup(raw[1..], after);
    }
  }

  /** `]]>` in character data. */
  lemma SectionEndInText(m: Machine, config: Config, raw: string, rest: string)
    requires m.path != [] && m.cursor.state == CONTENT && m.cursor.rest == raw + ("]]>" + rest)
    requires (forall c | c in raw :: c != '<') && forall i | 0 <= i < |raw| :: !("]]>" <= m.cursor.rest[i..])
    ensures Run(m, config) == Rejected
  {
    hide Run, SkipWs, TextLength;
    NotMarkup(raw, "]]>" + rest);
    TextStops(raw, rest);
    assert m.cursor.rest[|raw|..] == "]]>" + rest;
    NoNodeIsRejected(m, config);
  }

  lemma {:induction false} TextStops(raw: string, rest: string)
    requires (forall c | c in raw :: c != '<') && forall i | 0 <= i < |raw| :: !("]]>" <= (raw + ("]]>" + rest))[i..])
    ensures TextLength(raw + ("]]>" + rest)) == |raw|
  {
    var r := raw + ("]]>" + rest);
    if raw == "" {
      assert "]]>" <= r;
    } else {
      assert r[0..] == r;
      assert r[0] == raw[0] && raw[0] in raw;
      assert r[1..] == raw[1..] + ("]]>" + rest);
      assert forall c | c in raw[1..] :: c in raw;
      forall i | 0 <= i < |raw[1..]| ensures !("]]>" <= (raw[1..] + ("]]>" + rest))[i..]) {
        assert (raw[1..] + ("]]>" + rest))[i..] == r[i + 1..];
      }
      TextStops(raw[1..], rest);
    }
  }

  /** Markup in content after white space. */
  ghost predicate AtMarkup(m: Machine, r: string) {
    && m.path != [] && m.cursor.state == CONTENT && r != "" && r[0] == '<'
    && exists ws :: AllWs(ws) && m.cursor.rest == ws + r
  }

  lemma RunMarkup(m: Machine, config: Config, r: string)
    requires AtMarkup(m, r)
    ensures ContentMarkup(m.cursor.(rest := r)) == Failed ==> Run(m, config) == Rejected
  {
    hide Run, SkipWs, ContentMarkup, AllWs;
    var ws :| AllWs(ws) && m.cursor.rest == ws + r;
    SkipAllWs(ws, r);
    if ContentMarkup(m.cursor.(rest := r)) == Failed {
      NoNodeIsRejected(m, config);
    }
  }

  /** A comment that is not closed. */
  lemma UnclosedComment(m: Machine, config: Config, r: string)
    requires AtMarkup(m, r) && "<!--" <= r && forall i | 0 <= i <= |r| :: !("-->" <= r[i..])
    ensures Run(m, config) == Rejected
  {
    hide Run, AtMarkup, Find;
    FindIsFirst(r, "-->");
    assert r[2] == '-';
    RunMarkup(m, config, r);
  }

  /** A comment that ends in a dash. */
  lemma CommentEndsInDash(m: Machine, config: Config, body: string, rest: string)
    requires AtMarkup(m, CommentText(body + "-", rest)) && NoDashes(body) && body != "" && body[|body| - 1] != '-'
    requires body[0] != '>' && !("->" <= body)
    ensures Run(m, config) == Rejected
  {
    hide Run, AtMarkup, SkipComment;
    var r := CommentText(body + "-", rest);
    DashIsSeen(body, rest);
    assert r[2] == '-';
    RunMarkup(m, config, r);
  }

  lemma DashIsSeen(body: string, rest: string)
    requires NoDashes(body) && body != "" && body[|body| - 1] != '-' && body[0] != '>' && !("->" <= body)
    ensures !SkipComment(CommentText(body + "-", rest)).ok
  {
    hide Find, NoDashes;
    var r := CommentText(body + "-", rest);
    var tail := (body + "-") + ("-->" + rest);
    assert r[4..] == tail;
    DashBeforeEnd(body, rest);
    assert r[0] == '<' && r[1] == '!' && r[4] == body[0] && (|body| > 1 ==> r[5] == body[1]) && (|body| == 1 ==> r[5] == '-');
    forall i | 0 <= i < 4 ensures !("-->" <= r[i..]) {
      assert r[i..][0] == r[i] && r[i..][1] == r[i + 1] && r[i..][2] == r[i + 2];
    }
    FindFrom(r, 4, "-->");
    assert r[|body| + 4] == '-';
  }

  lemma {:induction false} DashBeforeEnd(body: string, rest: string)
    requires NoDashes(body) && body != "" && body[|body| - 1] != '-'
    ensures Find((body + "-") + ("-->" + rest), "-->") == |body| + 1
  {
    var r := (body + "-") + ("-->" + rest);
    assert r[0] == body[0];
    assert r[1..] == (body[1..] + "-") + ("-->" + rest);
    assert !("-->" <= r) by {
      if |body| > 1 {
        assert r[1] == body[1];
      }
    }
    if |body| == 1 {
      assert r[1..] == "-" + ("-->" + rest);
      assert r[1..][1..] == "-->" + rest && "-->" <= r[1..][1..];
      assert r[1..][2] == '-';
    } else {
      DashBeforeEnd(body[1..], rest);
    }
  }

  /** An XML declaration, in any letter case, where an instruction may stand. */
  lemma DeclarationInContent(m: Machine, config: Config, target: string, r: string)
    requires AtMarkup(m, "<?" + target + r) && InAnyCase(target, "xml") && r != "" && (r[0] == ' ' || r[0] == '?')
    ensures Run(m, config) == Rejected
  {
    hide Run, AtMarkup, Find;
    var text := "<?" + target + r;
    assert text[1] == '?';
    DeclarationStarts(target, r);
    RunMarkup(m, config, text);
  }

  lemma DeclarationStarts(target: string, r: string)
    requires InAnyCase(target, "xml") && r != "" && (r[0] == ' ' || r[0] == '?')
    ensures StartsIgnoringCase("<?" + target + r, "<?xml ") || StartsIgnoringCase("<?" + target + r, "<?xml?")
    ensures !StartsIgnoringCase("<?" + target + r, "<!--")
  {
    var text, key := "<?" + target + r, "<?xml" + [r[0]];
    assert text[0] == '<' && text[1] == '?' && text[5] == r[0];
    forall i | 2 <= i < 5 ensures Lower(text[i]) == Lower(key[i]) {
      assert text[i] == target[i - 2] && key[i] == "xml"[i - 2];
    }
    assert StartsIgnoringCase(text, key);
    assert key == "<?xml " || key == "<?xml?";
  }

  /** And in front of the document type or the root, other than at the very beginning. */
  lemma LateDeclaration(body: string, target: string, r: string, config: Config)
    requires CommentOk(body) && InAnyCase(target, "xml") && r != "" && (r[0] == ' ' || r[0] == '?')
    ensures Parse(CommentText(body, "<?" + target + r), config) == Rejected
  {
    hide Run, SkipMisc, SkipComment, CommentOk;
    var decl := "<?" + target + r;
    var text := CommentText(body, decl);
    OneMisc(Comment(body), decl);
    DeclarationStarts(target, r);
    SkipNoWs(text);
    SkipNoWs(decl);
    DeclarationFails(decl);
    assert text[1] == '!';
  }

  lemma DeclarationFails(r: string)
    requires !StartsIgnoringCase(r, "<!--") && (StartsIgnoringCase(r, "<?xml ") || StartsIgnoringCase(r, "<?xml?"))
    ensures !SkipMisc(r).ok
  {
  }

  /** An empty section. */
  lemma EmptySection(m: Machine, config: Config, rest: string)
    requires AtMarkup(m, "<![CDATA[" + ("]]>" + rest))
    ensures Run(m, config) == Rejected
  {
    hide Run, AtMarkup;
    var r := "<![CDATA[" + ("]]>" + rest);
    assert r[9..] == "]]>" + rest;
    RunMarkup(m, config, r);
  }

  /** A section that is not closed. */
  lemma UnclosedSection(m: Machine, config: Config, body: string)
    requires AtMarkup(m, "<![CDATA[" + body)
    requires (forall c | c in body :: c as int <= 127 && IsXmlChar(c as int)) && forall i | 0 <= i <= |body| :: !("]]>" <= body[i..])
    ensures Run(m, config) == Rejected
  {
    hide Run, AtMarkup, CDataLength;
    var r := "<![CDATA[" + body;
    assert r[9..] == body;
    SectionRunsOn(body);
    RunMarkup(m, config, r);
  }

  lemma {:induction false} SectionRunsOn(body: string)
    requires (forall c | c in body :: c as int <= 127 && IsXmlChar(c as int)) && forall i | 0 <= i <= |body| :: !("]]>" <= body[i..])
    ensures CDataLength(body) == |body|
  {
    if body != "" {
      assert body[0] in body && body[0..] == body;
      assert forall c | c in body[1..] :: c in body;
      forall i | 0 <= i <= |body[1..]| ensures !("]]>" <= body[1..][i..]) {
        assert body[1..][i..] == body[i + 1..];
      }
      SectionRunsOn(body[1..]);
    }
  }

  /** A byte above 127 cuts a section short: the text up to it is the section, and three bytes are lost. */
  lemma SectionIsCut(value: string, rest: string)
    requires IsCData(value) && |rest| >= 3 && rest[0] as int > 127
    ensures ProcessCDSect("<![CDATA[" + (value + rest)) == Got(CData(value), Cursor(rest[3..], CONTENT, ""))
  {
    hide CDataLength, IsCData;
    var r := "<![CDATA[" + (value + rest);
    assert r[9..] == value + rest;
    SectionStops(value, rest);
    assert (value + rest)[..|value|] == value && (value + rest)[|value| + 3..] == rest[3..];
  }

  lemma {:induction false} SectionStops(value: string, rest: string)
    requires (value == "" || IsCData(value)) && rest != "" && rest[0] as int > 127
    ensures CDataLength(value + rest) == |value| && (IsCData(value) ==> value != "")
  {
    var r := value + rest;
    if value == "" {
      assert r == rest;
    } else {
      assert r[0] == value[0] && r[1..] == value[1..] + rest;
      assert !("]]>" <= r) by {
        if |value| >= 3 {
          assert value[0..] == value && r[..3] == value[..3];
        } else {
          assert r[|value|] == rest[0];
        }
      }
      if |value| > 1 {
        forall i | 0 <= i <= |value[1..]| ensures !("]]>" <= value[1..][i..]) {
          assert value[1..][i..] == value[i + 1..];
        }
        assert forall i | 0 <= i < |value[1..]| :: value[1..][i] == value[i + 1];
      }
      SectionStops(value[1..], rest);
    }
  }

  // ----- tags -----

  /** `<` in front of what is no name. */
  lemma NoNameAfterLessThan(m: Machine, config: Config, r: string)
    requires m.path != [] && m.cursor.state != CONTENT && m.cursor.rest == r && AtTag(r)
    requires var code := Utf8ToInt(r[1..], config.errorChar).code; code != '/' as int && !IsNameChar(code, false)
    ensures Run(m, config) == Rejected
  {
    hide Run, IsNameChar, Utf8ToInt, SkipMisc, SkipWs;
    NotMisc(r);
    NoNodeIsRejected(m, config);
  }

  /** A punctuation token is the character that stands there. */
  lemma PunctuationToken(r: string, errorChar: ErrorChar)
    requires r != "" && r[0] != '<' && !IsWs(r[0])
    ensures var t := GetNextToken(r, errorChar);
            t.len > 0 && t.text[0] in "=>\"'" ==> r[0] == t.text[0]
  {
    hide GetNextToken, CopyLoop, TokenLength, GetChar, SkipMisc;
    NotMiscChar(r);
    SkipNoWs(r);
    var t := GetNextToken(r, errorChar);
    if t.len > 0 && t.text[0] in "=>\"'" {
      TextIsCopied(r, errorChar);
      StartIsHere(r, errorChar);
      FirstChar(r, TokenLength(r, errorChar), errorChar);
      PunctuationFirst(r, errorChar);
    }
  }

  lemma StartIsHere(r: string, errorChar: ErrorChar)
    requires r != "" && SkipMisc(r) == Scan(true, r)
    ensures GetNextToken(r, errorChar).start == r
  {
    hide SkipMisc, CopyLoop, TokenLength;
  }

  lemma PunctuationFirst(r: string, errorChar: ErrorChar)
    requires TokenLength(r, errorChar) > 0 && GetChar(r, errorChar).code in {'=' as int, '>' as int, '\"' as int, '\'' as int}
    ensures r[0] as int == GetChar(r, errorChar).code
  {
    hide InTables, Reference;
    if r[0] in "\"'=></" {
      PlainChar(r, errorChar);
    } else {
      NameCharCopies(r, errorChar);
    }
  }

  /** White space, and then something that begins neither a token nor a tag, or nothing at all. */
  predicate NextIsNot(r: string, c: char) {
    r == "" || (r[0] != c && r[0] != '<' && !IsWs(r[0]))
  }

  lemma NextTokenIsNot(ws: string, r: string, c: char, errorChar: ErrorChar)
    requires AllWs(ws) && NextIsNot(r, c) && c in "=>\"'"
    ensures var t := GetNextToken(ws + r, errorChar); t.len == 0 || t.text == "" || t.text[0] != c
    ensures var t := GetNextToken(SkipWs(ws + r), errorChar); t.len == 0 || t.text == "" || t.text[0] != c
  {
    hide GetNextToken, AllWs, SkipWs;
    if r == "" {
      NothingToRead(ws, errorChar);
    } else {
      BlankBeforeToken(ws, r, errorChar);
      SkipAllWs(ws, r);
      PunctuationToken(r, errorChar);
    }
  }

  lemma NothingToRead(ws: string, errorChar: ErrorChar)
    requires AllWs(ws)
    ensures GetNextToken(ws + "", errorChar).len == 0 && GetNextToken(SkipWs(ws + ""), errorChar).len == 0
  {
    SkipAllWs(ws, "");
    NotMiscChar(ws + "");
    if ws != "" {
      assert (ws + "")[0] == ws[0];
    }
  }

  /** An end tag without its bracket. */
  lemma UnfinishedEndTag(m: Machine, config: Config, name: string, ws: string, r: string)
    requires m.path != [] && m.cursor.state == ELEMENT && IsName(name) && AllWs(ws) && NextIsNot(r, '>') && EndsName(ws + r)
    requires m.cursor.rest == "</" + (name + (ws + r))
    ensures Run(m, config) == Rejected
  {
    hide Run, GetNextToken, SkipWs, IsNameChar, InTables, AllWs, NextIsNot, EndsName;
    var c, e := m.cursor, config.errorChar;
    EndTagToken(c.rest, e);
    assert c.rest[2..] == "" + name + (ws + r);
    NameToken("", name, ws + r, e);
    NextTokenIsNot(ws, r, '>', e);
    NoNodeIsRejected(m, config);
  }

  /** An attribute without its equals sign. */
  lemma NoEqualsSign(m: Machine, config: Config, before: string, name: string, ws: string, r: string)
    requires m.path != [] && m.stack != [] && m.cursor.state == ATTRIBUTE && IsName(name)
    requires AllWs(before) && AllWs(ws) && NextIsNot(r, '=') && EndsName(ws + r)
    requires m.cursor.rest == before + (name + (ws + r))
    ensures Run(m, config) == Rejected
  {
    hide Run, GetNextToken, SkipWs, IsNameChar, InTables, Utf8ToInt, AllWs, NextIsNot, EndsName;
    var c, e := m.cursor, config.errorChar;
    var named := name + (ws + r);
    NameFirst(name);
    assert named[0] == name[0];
    BlankBefore(before, named);
    assert "" + name + (ws + r) == named;
    NameToken("", name, ws + r, e);
    NextTokenIsNot(ws, r, '=', e);
    NoNodeIsRejected(m, config);
  }

  /** A value without quotes. */
  lemma NoQuote(m: Machine, config: Config, before: string, name: string, beforeEq: string, ws: string, r: string)
    requires m.path != [] && m.stack != [] && m.cursor.state == ATTRIBUTE && IsName(name)
    requires AllWs(before) && AllWs(beforeEq) && AllWs(ws) && NextIsNot(r, '\"') && NextIsNot(r, '\'')
    requires m.cursor.rest == before + (name + (beforeEq + ("=" + (ws + r))))
    ensures Run(m, config) == Rejected
  {
    hide Run, GetNextToken, SkipWs, IsNameChar, InTables, Utf8ToInt, AllWs, NextIsNot, ProcessAttribute;
    var c, e := m.cursor, config.errorChar;
    var afterName := beforeEq + ("=" + (ws + r));
    var named := name + afterName;
    NameFirst(name);
    assert named[0] == name[0];
    BlankBefore(before, named);
    BlankOrNot(beforeEq, "=" + (ws + r));
    EndsNameAt(afterName);
    assert "" + name + afterName == named;
    NameToken("", name, afterName, e);
    NoQuoteHere(c.(rest := afterName), EnvOf(m, config), name, beforeEq, ws, r);
    NoNodeIsRejected(m, config);
  }

  lemma NoQuoteHere(c: Cursor, env: Env, name: string, beforeEq: string, ws: string, r: string)
    requires IsName(name) && AllWs(beforeEq) && AllWs(ws) && NextIsNot(r, '\"') && NextIsNot(r, '\'')
    requires c.rest == beforeEq + ("=" + (ws + r))
    ensures ProcessAttribute(name, c, env) == Failed
  {
    hide GetNextToken, SkipWs, IsNameChar, Utf8ToInt, AllWs, NextIsNot, ProcessAttributeValue;
    var equals := "=" + (ws + r);
    BlankBeforeToken(beforeEq, equals, env.errorChar);
    CharToken(equals, env.errorChar);
    assert equals[1..] == ws + r;
    NextTokenIsNot(ws, r, '\"', env.errorChar);
    NextTokenIsNot(ws, r, '\'', env.errorChar);
  }

  /** A tag that begins inside a start tag, after an attribute. */
  lemma TagInsideTag(m: Machine, config: Config, a: SpelledAttr, r: string)
    requires m.path != [] && m.stack != [] && m.cursor.state == ATTRIBUTE && AttrOk(a) && m.plain
    requires |r| >= 2 && r[0] == '<' && (r[1] as int) < 128 && IsNameChar(r[1] as int, false) && m.cursor.rest == AttrText(a, r)
    ensures Run(m, config) == Rejected
  {
    hide Run, GetNextNode, AttrOk, GetNextToken, AttrText, Meant, IsNameChar;
    AttrIsPlain(a);
    EnvPlain(m, config, r, a.name, Meant(a.value));
    ReadSpelledAttr(m.cursor, EnvOf(m, config), a, r);
    StartTagToken(r, config.errorChar);
    NoNodeIsRejected(m, config);
  }

  /** The end of an empty-element tag where nothing was opened. */
  lemma SlashOutside(r: string, config: Config)
    ensures Run(Start("/>" + r), config) == Rejected
  {
    hide Run, GetNextToken, SkipWs;
    SlashToken("/>" + r, config.errorChar);
    NoNodeIsRejected(Start("/>" + r), config);
  }

  /** An end tag where nothing is open fails an assertion. */
  lemma EndTagOutside(m: Machine, config: Config, name: string, before: string, behind: string, after: string)
    requires m.path != [] && m.stack == [] && m.cursor.state == ELEMENT && m.cursor.rest == EndText(name, before, behind, after)
    requires IsName(name) && AllWs(before) && AllWs(behind)
    ensures Run(m, config) == Aborted
  {
    hide Run, GetNextNode, AllWs, IsName;
    ReadSpelledEnd(m.cursor, EnvOf(m, config), name, before, behind, after);
    RunNode(m, config, EndTag(name), m.cursor.(rest := after));
  }

  /** An end tag, in any spelling, that names another element than the innermost. */
  lemma MismatchedEnd(m: Machine, config: Config, name: string, before: string, behind: string, after: string)
    requires m.path != [] && m.stack != [] && m.stack[|m.stack| - 1] != name
    requires m.cursor.state == ELEMENT && m.cursor.rest == EndText(name, before, behind, after)
    requires IsName(name) && AllWs(before) && AllWs(behind)
    ensures Run(m, config) == Rejected
  {
    hide Run, GetNextNode, AllWs, IsName;
    ReadSpelledEnd(m.cursor, EnvOf(m, config), name, before, behind, after);
    RunNode(m, config, EndTag(name), m.cursor.(rest := after));
  }

  /** A second attribute of the same name, in any spelling. */
  lemma DuplicateAttribute(m: Machine, config: Config, a: SpelledAttr, rest: string)
    requires m.path != [] && m.stack != [] && m.plain && m.cursor.state == ATTRIBUTE
    requires AttrOk(a) && m.cursor.rest == AttrText(a, rest) && exists b | b in Top(m).attrs :: b.name == a.name
    ensures Run(m, config) == Rejected
  {
    hide Run, GetNextNode, AttrOk, GetNextToken, AttrText, Meant;
    var env := EnvOf(m, config);
    AttrIsPlain(a);
    EnvPlain(m, config, rest, a.name, Meant(a.value));
    ReadSpelledAttr(m.cursor, env, a, rest);
    var next := GetNextNode(m.cursor, env);
    if next.Failed? {
      NoNodeIsRejected(m, config);
    } else {
      RunNode(m, config, next.node, next.cursor);
    }
  }

  /** The text of the elements that are open ends. */
  lemma UnclosedElement(m: Machine, config: Config)
    requires m.path != [] && m.stack != [] && m.cursor.rest == ""
    ensures Run(m, config) == Rejected
  {
  }

  // ----- what it lets pass -----

  /** A start tag need not be closed: an end tag in its place closes it. */
  lemma StartTagMayBeOpen(name: string, config: Config)
    requires IsName(name) && !HasColon(name)
    ensures Parse("<" + name + "</" + name + ">", config) == Accepted([Element(name, [], [])])
  {
    hide Run, GetNextNode, IsName, HasColon, SkipProlog, AtTag, Attach;
    var close := EndText(name, "", "", "");
    var text := "<" + (name + close);
    assert text == "<" + name + "</" + name + ">";
    OpenStart(name, close);
    BareProlog(text);
    var m := Start(text);
    ReadOpenStart(m.cursor, EnvOf(m, config), name, "");
    RunOpen(m, config, name, Cursor(close, ATTRIBUTE, name));
    var m1 := Inside(Cursor(close, ATTRIBUTE, name), [] + [name], m.path + [Frame(name, [], [])]);
    ReadEndInTag(m1.cursor, EnvOf(m1, config), name, "");
    RunNode(m1, config, EndTag(name), m1.cursor.(rest := ""));
    CloseCurrent(m1.(cursor := m1.cursor.(rest := "")), [], m.path, name, [], []);
    AttachRoot(Element(name, [], []));
    RunAtEnd(Inside(Cursor("", CONTENT, name), [], [Frame(DOCUMENT_NAME, [], [Element(name, [], [])])]), config);
  }

  lemma OpenStart(name: string, after: string)
    requires IsName(name)
    ensures var r := "<" + (name + after); AtTag(r) && !("<!DOCTYPE" <= r)
  {
    hide IsNameChar;
    NameFirst(name);
    NameStart(name);
    var r := "<" + (name + after);
    assert r[1] == name[0];
  }

  lemma ReadOpenStart(c: Cursor, env: Env, name: string, after: string)
    requires c.state == ELEMENT && IsName(name) && c.rest == "<" + (name + EndText(name, "", "", after))
    ensures GetNextNode(c, env) == Got(StartTag(name), Cursor(EndText(name, "", "", after), ATTRIBUTE, name))
  {
    hide GetNextToken, SkipWs, IsNameChar, InTables;
    var close := EndText(name, "", "", after);
    NameFirst(name);
    assert c.rest[1] == name[0];
    StartTagToken(c.rest, env.errorChar);
    assert c.rest[1..] == "" + name + close;
    LessThanEndsName(close);
    NameToken("", name, close, env.errorChar);
    EndTagToken(close, env.errorChar);
  }

  lemma LessThanEndsName(r: string)
    requires r != "" && r[0] == '<'
    ensures EndsName(r)
  {
  }

  /** An end tag is read in the middle of a tag as well. */
  lemma ReadEndInTag(c: Cursor, env: Env, name: string, after: string)
    requires c.state != CONTENT && IsName(name) && c.rest == EndText(name, "", "", after)
    ensures GetNextNode(c, env) == Got(EndTag(name), c.(rest := after))
  {
    hide GetNextToken, SkipWs, IsNameChar, InTables;
    var close := ">" + after;
    EndTagToken(c.rest, env.errorChar);
    assert c.rest[2..] == "" + name + close;
    EndsNameAt(close);
    NameToken("", name, close, env.errorChar);
    SkipNoWs(close);
    CharToken(close, env.errorChar);
    assert close[1..] == after && [close[0]] == ">";
  }

  /** A bracket between tags, before the root, is passed over. */
  lemma StrayBracket(r: string, config: Config)
    requires r != ""
    ensures Run(Start(">" + r), config) == Run(Start(r), config)
  {
    hide Run, GetNextToken, SkipWs;
    CharToken(">" + r, config.errorChar);
    SkipNoWs(">" + r);
    assert (">" + r)[1..] == r;
    RunNode(Start(">" + r), config, Nothing, Start(r).cursor);
  }

  /** A document may lack its root. */
  lemma NoRoot(misc: seq<Item>, config: Config)
    requires IsMisc(misc) && (misc != [] ==> !misc[0].Blank?)
    ensures Run(Start(ItemsText(misc, "")), config) == Accepted([])
  {
    hide Run, SkipMisc, ItemOk, SkipWs;
    if misc == [] {
      RunAtEnd(Start(""), config);
    } else {
      var r := ItemsText(misc, "");
      MiscIsSkipped(misc, "");
      MiscStart(misc[0], ItemsText(misc[1..], ""));
      SkipNoWs(r);
      RunNode(Start(r), config, Nothing, Start("").cursor);
      RunAtEnd(Start(""), config);
    }
  }
}
