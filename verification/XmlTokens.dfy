/**
 What Parser_getNextToken does on each kind of token.
 */
module XmlTokens {
  import opened Utf8
  import opened XmlNames
  import opened XmlReference
  import opened XmlText
  import opened XmlScan

  /** The cursor is on `<` and this is neither a comment nor a processing instruction. */
  predicate AtTag(r: string) {
    r != "" && r[0] == '<' && !("<!--" <= r) && !("<?" <= r)
  }

  lemma CaselessPrefix(r: string, key: string)
    requires forall i | 0 <= i < |key| :: !('a' <= Lower(key[i]) <= 'z')
    ensures StartsIgnoringCase(r, key) <==> key <= r
  {
    if StartsIgnoringCase(r, key) {
      forall i | 0 <= i < |key| ensures r[i] == key[i] {
        assert Lower(r[i]) == Lower(key[i]);
      }
    }
  }

  lemma ShorterPrefix(r: string, key: string, n: nat)
    requires n <= |key|
    ensures StartsIgnoringCase(r, key) ==> StartsIgnoringCase(r, key[..n])
  {
  }

  /** A tag is not skipped as a comment, a declaration or a processing instruction. */
  lemma NotMisc(r: string)
    requires AtTag(r)
    ensures SkipWs(r) == r && SkipMisc(r) == Scan(true, r)
  {
    CaselessPrefix(r, "<!--");
    CaselessPrefix(r, "<?");
    ShorterPrefix(r, "<?xml ", 2);
    ShorterPrefix(r, "<?xml?", 2);
  }

  lemma OtherFirstChar(r: string, key: string)
    requires r != "" && key != "" && Lower(r[0]) != Lower(key[0])
    ensures !StartsIgnoringCase(r, key)
  {
  }

  lemma NotMiscChar(r: string)
    requires r == "" || r[0] != '<'
    ensures SkipMisc(r) == Scan(true, SkipWs(r))
  {
    if r != "" {
      OtherFirstChar(r, "<!--");
      OtherFirstChar(r, "<?xml ");
      OtherFirstChar(r, "<?xml?");
      OtherFirstChar(r, "<?");
    }
  }

  /** Parser_getNextToken put together from its parts. */
  lemma TokenFromParts(r: string, start: string, text: string, errorChar: ErrorChar)
    requires r != "" && SkipMisc(r) == Scan(true, start)
    requires var n := TokenLength(start, errorChar); n > 0 && CopyLoop(start, n, errorChar) == Copied(true, text)
    ensures GetNextToken(r, errorChar)
         == Token(TokenLength(start, errorChar), text, start, start[TokenLength(start, errorChar)..])
  {
    hide SkipMisc, CopyLoop, TokenLength;
  }

  /** Copying plain ASCII characters. */
  lemma {:induction false} CopyPlain(r: string, n: nat, errorChar: ErrorChar)
    requires n <= |r| && forall i | 0 <= i < n :: 0x20 <= r[i] as int < 128 && r[i] != '&'
    ensures CopyLoop(r, n, errorChar) == Copied(true, r[..n])
  {
    if n == 0 {
      CopyLoopEnd(r, 0, errorChar);
    } else {
      PlainChar(r, errorChar);
      CopyPlain(r[1..], n - 1, errorChar);
      CopyPlainStep(r, n, errorChar);
    }
  }

  lemma CopyPlainStep(r: string, n: nat, errorChar: ErrorChar)
    requires 0 < n <= |r|
    requires GetChar(r, errorChar) == Decoded(r[0] as int, 1) && CopiedBytes(GetChar(r, errorChar)) == [r[0]]
    requires CopyLoop(r[1..], n - 1, errorChar) == Copied(true, r[1..][..n - 1]) && r[0] != '\0'
    ensures CopyLoop(r, n, errorChar) == Copied(true, r[..n])
  {
    CopyLoopStep(r, n, errorChar);
    hide *;
    assert [r[0]] + r[1..][..n - 1] == r[..n];
  }

  /** One of the tokens that are a single punctuation character. */
  lemma CharToken(r: string, errorChar: ErrorChar)
    requires r != "" && r[0] in "=>\"'"
    ensures GetNextToken(r, errorChar) == Token(1, [r[0]], r, r[1..])
  {
    NotMiscChar(r);
    CopyPlain(r, 1, errorChar);
    TokenFromParts(r, r, r[..1], errorChar);
  }

  lemma SlashToken(r: string, errorChar: ErrorChar)
    requires "/>" <= r
    ensures SkipWs(r) == r && GetNextToken(r, errorChar) == Token(2, "/>", r, r[2..])
  {
    assert r[0] == '/' && r[1] == '>';
    NotMiscChar(r);
    CopyPlain(r, 2, errorChar);
    TokenFromParts(r, r, r[..2], errorChar);
  }

  lemma EndTagToken(r: string, errorChar: ErrorChar)
    requires "</" <= r
    ensures SkipWs(r) == r && GetNextToken(r, errorChar) == Token(2, "</", r, r[2..])
  {
    assert r[0] == '<' && r[1] == '/';
    NotMisc(r);
    assert Utf8ToInt(r[1..], errorChar).code == '/' as int;
    CopyPlain(r, 2, errorChar);
    TokenFromParts(r, r, r[..2], errorChar);
  }

  lemma StartTagToken(r: string, errorChar: ErrorChar)
    requires |r| >= 2 && r[0] == '<' && (r[1] as int) < 128 && IsNameChar(r[1] as int, false)
    ensures SkipWs(r) == r && GetNextToken(r, errorChar) == Token(1, "<", r, r[1..])
  {
    hide SkipMisc, CopyLoop, TokenLength, SkipWs, GetNextToken, InTables;
    assert AtTag(r);
    NotMisc(r);
    StartTagLength(r, errorChar);
    CopyPlain(r, 1, errorChar);
    assert r[..1] == "<";
    TokenFromParts(r, r, r[..1], errorChar);
  }

  lemma StartTagLength(r: string, errorChar: ErrorChar)
    requires |r| >= 2 && r[0] == '<' && (r[1] as int) < 128 && IsNameChar(r[1] as int, false)
    ensures TokenLength(r, errorChar) == 1
  {
    hide InTables;
    AsciiCode(r[1..], errorChar);
    hide Utf8ToInt, NameTail;
  }

  /** On a tag the token starts with `<`, unless there is none. */
  lemma TagToken(r: string, errorChar: ErrorChar)
    requires AtTag(r)
    ensures SkipWs(r) == r
    ensures var t := GetNextToken(r, errorChar);
            (t.text != "" ==> t.text[0] == '<') && (t.len == 0 ==> t.rest != "")
  {
    hide InTables;
    NotMisc(r);
    PlainChar(r, errorChar);
    if TokenLength(r, errorChar) > 0 {
      CopyLoopStep(r, TokenLength(r, errorChar), errorChar);
    }
    TagTokenParts(r, errorChar);
  }

  lemma TagTokenParts(r: string, errorChar: ErrorChar)
    requires r != "" && SkipMisc(r) == Scan(true, r)
    requires var n := TokenLength(r, errorChar);
             n > 0 ==> var text := CopyLoop(r, n, errorChar).text; text != "" && text[0] == '<'
    ensures var t := GetNextToken(r, errorChar);
            (t.text != "" ==> t.text[0] == '<') && (t.len == 0 ==> t.rest != "")
  {
    hide SkipMisc, CopyLoop, TokenLength;
  }

  lemma FirstChar(r: string, n: nat, errorChar: ErrorChar)
    requires 0 < n <= |r|
    ensures var copy := CopyLoop(r, n, errorChar); var d := GetChar(r, errorChar);
            copy.text != "" ==> d.code > 0 && (if d.code < 128 then copy.text[0] as int == d.code else copy.text[0] as int >= 128)
  {
    hide CopyLoop, GetChar, CopiedBytes;
    CopyLoopStep(r, n, errorChar);
    FirstCopied(r, errorChar);
  }

  lemma FirstCopied(r: string, errorChar: ErrorChar)
    requires r != ""
    ensures var d := GetChar(r, errorChar);
            d.code > 0 ==> (0 < d.len && (d.len == 1 ==> d.code <= 127)
                            && (d.code < 128 ==> CopiedBytes(d) == [d.code as char])
                            && (d.code >= 128 ==> CopiedBytes(d) != "" && CopiedBytes(d)[0] as int >= 128))
  {
    hide Reference, Utf8ToInt;
    GetCharRange(r, errorChar);
  }

  lemma GetCharRange(r: string, errorChar: ErrorChar)
    requires r != ""
    ensures GetChar(r, errorChar).code <= 0x10FFFF
  {
    hide Reference, Utf8ToInt;
  }

  /** Only the two bytes themselves give the token of an empty-element tag. */
  lemma SlashText(r: string, errorChar: ErrorChar)
    ensures var t := GetNextToken(r, errorChar); t.text == "/>" ==> "/>" <= t.start
  {
    hide GetNextToken, CopyLoop, TokenLength, GetChar;
    var t := GetNextToken(r, errorChar);
    if t.text == "/>" {
      TextIsCopied(r, errorChar);
      FirstChar(t.start, TokenLength(t.start, errorChar), errorChar);
      SlashFirst(t.start, errorChar);
    }
  }

  /** What is in the token buffer was copied from the start of the token. */
  lemma TextIsCopied(r: string, errorChar: ErrorChar)
    requires GetNextToken(r, errorChar).text != ""
    ensures var t := GetNextToken(r, errorChar); var n := TokenLength(t.start, errorChar);
            n > 0 && t.start != "" && t.text == CopyLoop(t.start, n, errorChar).text
  {
    hide SkipMisc, CopyLoop, TokenLength;
  }

  lemma SlashFirst(r: string, errorChar: ErrorChar)
    requires TokenLength(r, errorChar) > 0 && GetChar(r, errorChar).code == '/' as int
    ensures "/>" <= r
  {
    hide InTables;
    if r[0] in "\"'=><" {
      PlainChar(r, errorChar);
    } else if r[0] != '/' {
      NameCharCopies(r, errorChar);
    }
  }

  /** And those two bytes always do. */
  lemma SlashStart(r: string, errorChar: ErrorChar)
    ensures var t := GetNextToken(r, errorChar); t.len > 0 && "/>" <= t.start ==> t.text == "/>"
  {
    var t := GetNextToken(r, errorChar);
    if t.len > 0 && "/>" <= t.start {
      SlashToken(t.start, errorChar);
      SameStart(r, t.start, errorChar);
    }
  }

  lemma SameStart(r: string, start: string, errorChar: ErrorChar)
    requires GetNextToken(r, errorChar).len > 0 && GetNextToken(r, errorChar).start == start
    requires start != "" && SkipMisc(start) == Scan(true, start)
    ensures GetNextToken(r, errorChar).text == GetNextToken(start, errorChar).text
  {
    hide SkipMisc, CopyLoop, TokenLength;
  }

  // ----- names -----

  /** An ASCII XML name. */
  predicate IsName(name: string) {
    && name != ""
    && IsNameChar(name[0] as int, false)
    && AllNameChars(name)
  }

  predicate AllNameChars(s: string) {
    forall i | 0 <= i < |s| :: s[i] as int < 128 && IsNameChar(s[i] as int, true)
  }

  /** Nothing, or an ASCII character that is no name character. */
  predicate EndsName(after: string) {
    after == "" || ((after[0] as int) < 128 && !IsNameChar(after[0] as int, true))
  }

  lemma {:induction false} NameLength(name: string, after: string, errorChar: ErrorChar)
    requires EndsName(after) && AllNameChars(name)
    ensures NameTail(name + after, errorChar) == |name|
  {
    hide InTables;
    var r := name + after;
    AsciiCode(r, errorChar);
    if name == "" {
      assert r == after;
    } else {
      assert r[0] == name[0];
      assert r[1..] == name[1..] + after;
      NameLength(name[1..], after, errorChar);
    }
  }

  lemma AsciiCode(r: string, errorChar: ErrorChar)
    requires r == "" || (r[0] as int) < 128
    ensures Utf8ToInt(r, errorChar) == Decoded(At(r, 0), 1)
  {
  }

  lemma NameToken(ws: string, name: string, after: string, errorChar: ErrorChar)
    requires IsName(name) && EndsName(after) && (ws == "" || ws == " ")
    ensures GetNextToken(ws + name + after, errorChar) == Token(|name|, name, name + after, after)
  {
    hide SkipMisc, CopyLoop, TokenLength, SkipWs, GetNextToken, EndsName, IsNameChar;
    var r := ws + name + after;
    var start := name + after;
    SkipBlank(ws, name, after);
    NotMiscChar(r);
    NameTokenLength(name, after, errorChar);
    NameIsPlain(name, after);
    CopyPlain(start, |name|, errorChar);
    assert start[..|name|] == name && start[|name|..] == after;
    TokenFromParts(r, start, name, errorChar);
  }

  lemma NameTokenLength(name: string, after: string, errorChar: ErrorChar)
    requires IsName(name) && EndsName(after)
    ensures TokenLength(name + after, errorChar) == |name|
  {
    hide InTables;
    NameLength(name, after, errorChar);
    AsciiCode(name + after, errorChar);
    hide Utf8ToInt, NameTail;
  }

  lemma NameIsPlain(name: string, after: string)
    requires IsName(name)
    ensures forall i | 0 <= i < |name| :: 0x20 <= (name + after)[i] as int < 128 && (name + after)[i] != '&'
  {
    hide InTables;
  }

  lemma SkipBlank(ws: string, name: string, after: string)
    requires IsName(name) && (ws == "" || ws == " ")
    ensures SkipWs(ws + name + after) == name + after
    ensures (ws + name + after)[0] != '<'
  {
    hide InTables;
    var r := ws + name + after;
    if ws == "" {
      assert r == name + after;
    } else {
      assert r[0] == ' ' && r[1..] == name + after;
    }
  }
}
