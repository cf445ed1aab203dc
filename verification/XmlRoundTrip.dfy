/**
 Printing a document and parsing the text again: what comes back, for every
 document whose names and values the printer can express, and when that is the
 document itself.
 */
module XmlRoundTrip {
  import opened XmlText
  import opened XmlNames
  import opened XmlScan
  import opened XmlTokens
  import opened XmlTree
  import opened XmlMachine
  import opened XmlRead

  // ----- which documents -----

  predicate PrintableAttr(a: Attr) {
    IsName(a.name) && IsPlainAttribute(a.name) && WellFormed(a.value)
  }

  predicate PrintableAttrs(attrs: seq<Attr>) {
    DistinctNames(attrs) && forall i | 0 <= i < |attrs| :: PrintableAttr(attrs[i])
  }

  /**
   Colon-free ASCII names, distinct attribute names other than xmlns, and values
   of XML characters, for all nodes that the printer reaches.
   */
  predicate Printable(siblings: seq<Tree>) {
    siblings == [] ||
    match siblings[0]
    case TextNode(value) => WellFormed(value)
    case CDataNode(value) => IsCData(value)
    case Element(name, attrs, kids) =>
      IsName(name) && !HasColon(name) && PrintableAttrs(attrs) && Printable(kids) && Printable(siblings[1..])
  }

  /** What comes back: siblings after a text or CDATA node are not printed, white-space-only text is not read. */
  function Reparsed(siblings: seq<Tree>): seq<Tree> {
    if siblings == [] then []
    else match siblings[0]
      case TextNode(value) => if AllWs(value) then [] else [siblings[0]]
      case CDataNode(_) => [siblings[0]]
      case Element(name, attrs, kids) => [Element(name, attrs, Reparsed(kids))] + Reparsed(siblings[1..])
  }

  // ----- running -----

  /** A machine inside a document whose root has been opened and where no prefix has been seen. */
  function Inside(cursor: Cursor, stack: seq<string>, path: seq<Frame>): Machine {
    Machine(cursor, stack, path, true, true)
  }

  function Attach(path: seq<Frame>, trees: seq<Tree>): seq<Frame>
    requires path != []
  {
    var top := path[|path| - 1];
    path[..|path| - 1] + [top.(kids := top.kids + trees)]
  }

  lemma AttachNone(path: seq<Frame>)
    requires path != []
    ensures Attach(path, []) == path
  {
    var top := path[|path| - 1];
    assert top.kids + [] == top.kids;
    assert path == path[..|path| - 1] + [top];
  }

  lemma AttachTwice(path: seq<Frame>, a: seq<Tree>, b: seq<Tree>)
    requires path != []
    ensures Attach(Attach(path, a), b) == Attach(path, a + b)
  {
    var top := path[|path| - 1];
    assert top.kids + a + b == top.kids + (a + b);
  }

  function Continue(t: Turn, config: Config): Outcome
    requires t.Running? ==> t.machine.path != []
  {
    match t
    case Stopped(outcome) => outcome
    case Running(next) => Run(next, config)
  }

  /** A run goes on as the node it reads first says. */
  lemma RunNode(m: Machine, config: Config, node: NewNode, cursor: Cursor)
    requires m.path != [] && GetNextNode(m.cursor, EnvOf(m, config)) == Got(node, cursor)
    ensures var t := Apply(m.(cursor := cursor), node);
            (t.Running? ==> t.machine.path != []) && Run(m, config) == Continue(t, config)
  {
    hide GetNextNode, Apply;
    StepProgress(m, config);
  }

  lemma EnvPlain(m: Machine, config: Config, left: string, name: string, value: string)
    requires m.plain && IsPlainAttribute(name)
    ensures EnvOf(m, config).namespaceOk(left, name, value)
  {
  }

  /** A start tag pushes its element. */
  lemma RunOpen(m: Machine, config: Config, name: string, cursor: Cursor)
    requires m.path != [] && m.plain && !HasColon(name) && !(m.hasTopLevel && m.stack == [])
    requires GetNextNode(m.cursor, EnvOf(m, config)) == Got(StartTag(name), cursor)
    ensures Run(m, config) == Run(Inside(cursor, m.stack + [name], m.path + [Frame(name, [], [])]), config)
  {
    hide GetNextNode, Run;
    RunNode(m, config, StartTag(name), cursor);
  }

  // ----- attributes -----

  /** The printed attributes after the name of the first one and its equals sign. */
  function AfterName(attrs: seq<Attr>): string
    requires attrs != []
  {
    "\"" + Escape(attrs[0].value) + "\"" + if |attrs| == 1 then "" else " " + PrintAttrs(attrs[1..])
  }

  lemma PrintAttrsHead(attrs: seq<Attr>, after: string)
    requires attrs != []
    ensures " " + PrintAttrs(attrs) + after == " " + attrs[0].name + "=" + (AfterName(attrs) + after)
  {
    PrintAttrsParts(attrs);
    hide PrintAttrs, AfterName, Escape;
    Regroup(attrs[0].name, Escape(attrs[0].value), AttrTail(attrs), after);
  }

  function AttrTail(attrs: seq<Attr>): string
    requires attrs != []
  {
    if |attrs| == 1 then "" else " " + PrintAttrs(attrs[1..])
  }

  lemma PrintAttrsParts(attrs: seq<Attr>)
    requires attrs != []
    ensures PrintAttrs(attrs) == attrs[0].name + "=\"" + Escape(attrs[0].value) + "\"" + AttrTail(attrs)
    ensures AfterName(attrs) == "\"" + Escape(attrs[0].value) + "\"" + AttrTail(attrs)
  {
    hide Escape;
  }

  lemma Regroup(n: string, e: string, t: string, after: string)
    ensures " " + (n + "=\"" + e + "\"" + t) + after == " " + n + "=" + ("\"" + e + "\"" + t + after)
    ensures " " + (n + "=\"" + e + "\"" + t) + after == " " + n + ("=\"" + e + "\"" + (t + after))
  {
  }

  function FollowOf(attrs: seq<Attr>, after: string): Follow
    requires attrs != []
  {
    if |attrs| == 1 then TagEnd(after) else MoreAttrs(attrs[1].name, AfterName(attrs[1..]) + ">" + after)
  }

  lemma FollowShape(attrs: seq<Attr>, after: string)
    requires attrs != []
    ensures FollowText(FollowOf(attrs, after)) == AttrTail(attrs) + (">" + after)
  {
    hide PrintAttrs, AfterName, Escape;
    if |attrs| == 1 {
      assert "" + (">" + after) == ">" + after;
    } else {
      PrintAttrsHead(attrs[1..], ">" + after);
      Assoc(AfterName(attrs[1..]), ">", after);
    }
  }

  /** The printed attributes as the scanner meets them. */
  lemma PrintAttrsAsRead(attrs: seq<Attr>, after: string)
    requires attrs != []
    ensures " " + PrintAttrs(attrs) + ">" + after
         == " " + attrs[0].name + ("=\"" + Escape(attrs[0].value) + "\"" + FollowText(FollowOf(attrs, after)))
  {
    hide PrintAttrs, AfterName, AttrTail, Escape, FollowOf, FollowText;
    PrintAttrsParts(attrs);
    FollowShape(attrs, after);
    Regroup(attrs[0].name, Escape(attrs[0].value), AttrTail(attrs), ">" + after);
    Assoc(" " + PrintAttrs(attrs), ">", after);
  }

  lemma MoreAttrsShape(attrs: seq<Attr>, after: string)
    requires |attrs| > 1
    ensures FollowText(FollowOf(attrs, after)) == " " + PrintAttrs(attrs[1..]) + ">" + after
  {
    hide PrintAttrs, AfterName, FollowOf, FollowText, Escape;
    FollowShape(attrs, after);
    Assoc(" " + PrintAttrs(attrs[1..]), ">", after);
  }

  lemma Assoc(a: string, b: string, c: string)
    ensures a + b + c == a + (b + c)
  {
  }

  lemma {:induction false} RunAttrs(attrs: seq<Attr>, done: seq<Attr>, name: string, after: string, lastElem: string,
                                    stack: seq<string>, base: seq<Frame>, config: Config)
    requires attrs != [] && stack != [] && PrintableAttrs(done + attrs)
    ensures Run(Inside(Cursor(" " + PrintAttrs(attrs) + ">" + after, ATTRIBUTE, lastElem), stack,
                       base + [Frame(name, done, [])]), config)
         == Run(Inside(Cursor(after, CONTENT, lastElem), stack, base + [Frame(name, done + attrs, [])]), config)
    decreases |attrs|
  {
    hide Run, PrintAttrs, Escape, GetNextNode, FollowOf, FollowText, IsName, IsPlainAttribute, WellFormed;
    var cursor := Cursor(" " + PrintAttrs(attrs) + ">" + after, ATTRIBUTE, lastElem);
    var m := Inside(cursor, stack, base + [Frame(name, done, [])]);
    var a := attrs[0];
    var f := FollowOf(attrs, after);
    assert (done + attrs)[|done|] == a;
    PrintAttrsAsRead(attrs, after);
    FollowIsName(attrs, done, after);
    EnvPlain(m, config, FollowText(f), a.name, a.value);
    ReadAttribute(cursor, EnvOf(m, config), a.name, a.value, f);
    RunAddAttribute(m, config, a, FollowCursor(f, lastElem), name, done, base, attrs);
    assert done + attrs == done + [a] + attrs[1..];
    if |attrs| == 1 {
      assert done + attrs == done + [a];
      FollowEnd(attrs, after, lastElem);
    } else {
      FollowMore(attrs, after, lastElem);
      RunAttrs(attrs[1..], done + [a], name, after, lastElem, stack, base, config);
    }
  }

  lemma FollowIsName(attrs: seq<Attr>, done: seq<Attr>, after: string)
    requires attrs != [] && PrintableAttrs(done + attrs)
    ensures var f := FollowOf(attrs, after); f.MoreAttrs? ==> IsName(f.attr)
  {
    hide IsName, WellFormed, IsPlainAttribute, AfterName;
    if |attrs| > 1 {
      assert (done + attrs)[|done| + 1] == attrs[1];
    }
  }

  lemma FollowEnd(attrs: seq<Attr>, after: string, lastElem: string)
    requires |attrs| == 1
    ensures FollowCursor(FollowOf(attrs, after), lastElem) == Cursor(after, CONTENT, lastElem)
  {
  }

  lemma FollowMore(attrs: seq<Attr>, after: string, lastElem: string)
    requires |attrs| > 1
    ensures FollowCursor(FollowOf(attrs, after), lastElem)
         == Cursor(" " + PrintAttrs(attrs[1..]) + ">" + after, ATTRIBUTE, lastElem)
  {
    hide PrintAttrs, AfterName, FollowText;
    MoreAttrsShape(attrs, after);
  }

  lemma RunAddAttribute(m: Machine, config: Config, a: Attr, cursor: Cursor, name: string, done: seq<Attr>,
                        base: seq<Frame>, attrs: seq<Attr>)
    requires attrs != [] && a == attrs[0] && PrintableAttrs(done + attrs)
    requires m == Inside(m.cursor, m.stack, base + [Frame(name, done, [])])
    requires GetNextNode(m.cursor, EnvOf(m, config)) == Got(Attribute(a.name, a.value), cursor)
    ensures Run(m, config) == Run(Inside(cursor, m.stack, base + [Frame(name, done + [a], [])]), config)
  {
    hide GetNextNode, Run, IsName, WellFormed, IsPlainAttribute;
    RunNode(m, config, Attribute(a.name, a.value), cursor);
    assert (done + attrs)[|done|] == a;
    assert !HasAttr(done, a.name) by {
      forall i | 0 <= i < |done| ensures done[i].name != a.name {
        assert (done + attrs)[i] == done[i];
      }
    }
    assert (base + [Frame(name, done, [])])[..|base|] == base;
  }

  // ----- start tags -----

  lemma RunStartTag(m: Machine, config: Config, name: string, attrs: seq<Attr>, after: string)
    requires m.path != [] && m.plain && !(m.hasTopLevel && m.stack == [])
    requires IsName(name) && !HasColon(name) && PrintableAttrs(attrs)
    requires m.cursor.state == ELEMENT && m.cursor.rest == PrintOpenTag(name, attrs) + ">" + after
    ensures Run(m, config)
         == Run(Inside(Cursor(after, CONTENT, name), m.stack + [name], m.path + [Frame(name, attrs, [])]), config)
  {
    hide Run, PrintAttrs, GetNextNode, HasColon, IsName, IsPlainAttribute, WellFormed, AfterName;
    var env := EnvOf(m, config);
    if attrs == [] {
      assert m.cursor.rest == "<" + name + ">" + after;
      ReadBareStartTag(m.cursor, env, name, after);
      RunOpen(m, config, name, Cursor(after, CONTENT, name));
    } else {
      var tail := AfterName(attrs) + (">" + after);
      var start := " " + PrintAttrs(attrs) + ">" + after;
      PrintAttrsHead(attrs, ">" + after);
      assert start == " " + PrintAttrs(attrs) + (">" + after);
      assert m.cursor.rest == "<" + name + start;
      ReadStartTagWithAttrs(m.cursor, env, name, attrs[0].name, tail);
      RunOpen(m, config, name, Cursor(start, ATTRIBUTE, name));
      assert [] + attrs == attrs;
      RunAttrs(attrs, [], name, after, name, m.stack + [name], m.path, config);
    }
  }

  // ----- elements -----

  function EndTagText(name: string, tail: string): string {
    "</" + name + ">" + tail
  }

  function ElementText(e: Tree, tail: string): string
    requires e.Element?
  {
    PrintOpenTag(e.name, e.attrs) + ">" + (GapInside(e.kids) + PrintSiblings(e.kids) + EndTagText(e.name, tail))
  }

  /** The text of siblings, as the scanner meets the element in front. */
  lemma PrintElementAsRead(siblings: seq<Tree>, after: string)
    requires siblings != [] && siblings[0].Element?
    ensures PrintSiblings(siblings) + after
         == ElementText(siblings[0], GapAfter(siblings) + PrintSiblings(siblings[1..]) + after)
  {
    hide PrintOpenTag;
    var e := siblings[0];
    PrintElementParts(siblings);
    hide PrintSiblings;
    RegroupElement(PrintOpenTag(e.name, e.attrs), GapInside(e.kids), PrintSiblings(e.kids), e.name,
                   GapAfter(siblings), PrintSiblings(siblings[1..]), after);
  }

  lemma PrintElementParts(siblings: seq<Tree>)
    requires siblings != [] && siblings[0].Element?
    ensures var e := siblings[0];
            PrintSiblings(siblings) == PrintOpenTag(e.name, e.attrs) + (">" + GapInside(e.kids)) + PrintSiblings(e.kids)
              + "</" + e.name + (">" + GapAfter(siblings)) + PrintSiblings(siblings[1..])
  {
    hide PrintOpenTag, GapInside, GapAfter;
  }

  lemma RegroupElement(open: string, g: string, kids: string, name: string, h: string, rest: string, after: string)
    ensures open + (">" + g) + kids + "</" + name + (">" + h) + rest + after
         == open + ">" + (g + kids + ("</" + name + ">" + (h + rest + after)))
  {
    var tail := h + rest + after;
    assert (">" + h) + rest + after == ">" + tail;
    var close := "</" + name + ">" + tail;
    assert "</" + name + (">" + h) + rest + after == close;
    assert (">" + g) + kids + close == ">" + (g + kids + close);
    assert open + (">" + g) + kids + "</" + name + (">" + h) + rest + after
        == open + ((">" + g) + kids + ("</" + name + (">" + h) + rest + after));
  }

  /** Inside an element whose name the printer wrote; its end tag comes next. */
  predicate Ready(m: Machine) {
    |m.path| >= 2 && m.stack != [] && m.hasTopLevel && m.plain
  }

  /** The children of the current node are read; white space may be left before its end tag. */
  lemma {:induction false} RunSiblings(siblings: seq<Tree>, ws: string, after: string, m: Machine, config: Config)
    returns (ws': string, lastElem: string)
    requires Printable(siblings) && Ready(m) && AllWs(ws) && "</" <= after
    requires siblings != [] && siblings[0].TextNode? ==> ws == ""
    requires m.cursor.state == CONTENT && m.cursor.rest == ws + PrintSiblings(siblings) + after
    ensures AllWs(ws')
    ensures Run(m, config)
         == Run(Inside(Cursor(ws' + after, CONTENT, lastElem), m.stack, Attach(m.path, Reparsed(siblings))), config)
    decreases siblings, 0
  {
    hide Run, GetNextNode, WellFormed, Escape, PrintSiblings, Printable, AllWs, Attach, Reparsed, IsCData;
    if siblings == [] {
      RunNothing(siblings, ws, after, m);
      ws', lastElem := ws, m.cursor.lastElem;
    } else if siblings[0].TextNode? {
      ws', lastElem := RunText(siblings, after, m, config);
    } else if siblings[0].CDataNode? {
      ws', lastElem := RunCData(siblings, ws, after, m, config);
    } else {
      ws', lastElem := RunFirstElement(siblings, ws, after, m, config);
    }
  }

  lemma RunNothing(siblings: seq<Tree>, ws: string, after: string, m: Machine)
    requires siblings == [] && m.path != []
    ensures ws + PrintSiblings(siblings) + after == ws + after
    ensures Attach(m.path, Reparsed(siblings)) == m.path
  {
    AttachNone(m.path);
  }

  lemma RunText(siblings: seq<Tree>, after: string, m: Machine, config: Config)
    returns (ws': string, lastElem: string)
    requires siblings != [] && siblings[0].TextNode? && Printable(siblings) && Ready(m) && "</" <= after
    requires m.cursor.state == CONTENT && m.cursor.rest == "" + PrintSiblings(siblings) + after
    ensures AllWs(ws')
    ensures Run(m, config)
         == Run(Inside(Cursor(ws' + after, CONTENT, lastElem), m.stack, Attach(m.path, Reparsed(siblings))), config)
  {
    hide Run, GetNextNode, WellFormed, Escape, AllWs;
    var value := siblings[0].value;
    lastElem := m.cursor.lastElem;
    assert m.cursor.rest == Escape(value) + after;
    if AllWs(value) {
      EscapeKeepsWs(value);
      AttachNone(m.path);
      ws' := value;
    } else {
      NoWs();
      ReadText(m.cursor, EnvOf(m, config), value, after);
      RunLeaf(m, config, Text(value), TextNode(value), m.cursor.(rest := after));
      assert "" + after == after;
      ws' := "";
    }
  }

  lemma NoWs()
    ensures AllWs("") && AllWs("\r\n")
  {
  }

  lemma RunLeaf(m: Machine, config: Config, node: NewNode, leaf: Tree, cursor: Cursor)
    requires Ready(m) && GetNextNode(m.cursor, EnvOf(m, config)) == Got(node, cursor)
    requires (node.Text? && leaf == TextNode(node.value)) || (node.CData? && leaf == CDataNode(node.value))
    ensures Run(m, config) == Run(Inside(cursor, m.stack, Attach(m.path, [leaf])), config)
  {
    hide Run, GetNextNode;
    RunNode(m, config, node, cursor);
  }

  lemma RunCData(siblings: seq<Tree>, ws: string, after: string, m: Machine, config: Config)
    returns (ws': string, lastElem: string)
    requires siblings != [] && siblings[0].CDataNode? && Printable(siblings) && Ready(m) && AllWs(ws)
    requires m.cursor.state == CONTENT && m.cursor.rest == ws + PrintSiblings(siblings) + after
    ensures AllWs(ws')
    ensures Run(m, config)
         == Run(Inside(Cursor(ws' + after, CONTENT, lastElem), m.stack, Attach(m.path, Reparsed(siblings))), config)
  {
    hide Run, GetNextNode, IsCData, AllWs;
    var value := siblings[0].value;
    Assoc(ws, PrintSiblings(siblings), after);
    NoWs();
    ReadCData(m.cursor, EnvOf(m, config), ws, value, after);
    RunLeaf(m, config, CData(value), CDataNode(value), m.cursor.(rest := after));
    assert "" + after == after;
    ws', lastElem := "", m.cursor.lastElem;
  }

  /** White space before a tag only moves the cursor. */
  lemma RunToTag(m: Machine, config: Config, ws: string, tag: string)
    requires m.path != [] && m.cursor.state == CONTENT && AllWs(ws) && m.cursor.rest == ws + tag
    requires AtTag(tag) && !("<![CDATA[" <= tag)
    ensures Run(m, config) == Run(m.(cursor := m.cursor.(rest := tag, state := ELEMENT)), config)
  {
    hide Run, GetNextNode, AllWs;
    ReadToTag(m.cursor, EnvOf(m, config), ws, tag);
    RunNode(m, config, Nothing, m.cursor.(rest := tag, state := ELEMENT));
  }

  lemma ElementAtTag(e: Tree, tail: string)
    requires e.Element? && IsName(e.name)
    ensures AtTag(ElementText(e, tail)) && !("<![CDATA[" <= ElementText(e, tail)) && !("<!DOCTYPE" <= ElementText(e, tail))
  {
    hide IsNameChar, PrintAttrs, PrintSiblings, GapInside, EndTagText;
    var r := ElementText(e, tail);
    NameFirst(e.name);
    assert r[0] == '<' && r[1] == e.name[0];
    NameStart(e.name);
  }

  lemma NameStart(name: string)
    requires IsName(name)
    ensures name[0] != '!' && name[0] != '?' && name[0] != '/'
  {
  }

  lemma {:induction false} RunFirstElement(siblings: seq<Tree>, ws: string, after: string, m: Machine, config: Config)
    returns (ws': string, lastElem: string)
    requires siblings != [] && siblings[0].Element? && Printable(siblings) && Ready(m) && AllWs(ws) && "</" <= after
    requires m.cursor.state == CONTENT && m.cursor.rest == ws + PrintSiblings(siblings) + after
    ensures AllWs(ws')
    ensures Run(m, config)
         == Run(Inside(Cursor(ws' + after, CONTENT, lastElem), m.stack, Attach(m.path, Reparsed(siblings))), config)
    decreases siblings, 0, 0
  {
    hide Run, GetNextNode, WellFormed, PrintSiblings, Printable, AllWs, Attach, Reparsed, ElementText, IsName, AtTag;
    var e, rest := siblings[0], siblings[1..];
    var gap := GapAfter(siblings);
    var tail := gap + PrintSiblings(rest) + after;
    var text := ElementText(e, tail);
    PrintElementAsRead(siblings, after);
    Assoc(ws, PrintSiblings(siblings), after);
    PrintableElement(siblings);
    ElementAtTag(e, tail);
    RunToTag(m, config, ws, text);
    var m1 := m.(cursor := m.cursor.(rest := text, state := ELEMENT));
    var closed := RunElement(e, tail, m1, config);
    NoWs();
    AttachKeepsPath(m.path, [Reread(e)]);
    var m2 := Inside(Cursor(tail, CONTENT, closed), m.stack, Attach(m.path, [Reread(e)]));
    ws', lastElem := RunSiblings(rest, gap, after, m2, config);
    AttachTwice(m.path, [Reread(e)], Reparsed(rest));
    ReparsedElement(siblings);
  }

  /** The element that comes back. */
  function Reread(e: Tree): Tree
    requires e.Element?
  {
    Element(e.name, e.attrs, Reparsed(e.kids))
  }

  lemma ReparsedElement(siblings: seq<Tree>)
    requires siblings != [] && siblings[0].Element?
    ensures Reparsed(siblings) == [Reread(siblings[0])] + Reparsed(siblings[1..])
  {
  }

  lemma PrintableElement(siblings: seq<Tree>)
    requires siblings != [] && siblings[0].Element? && Printable(siblings)
    ensures var e := siblings[0];
            IsName(e.name) && !HasColon(e.name) && PrintableAttrs(e.attrs) && Printable(e.kids) && Printable(siblings[1..])
  {
  }

  lemma AttachKeepsPath(path: seq<Frame>, trees: seq<Tree>)
    requires path != []
    ensures |Attach(path, trees)| == |path|
  {
  }

  /** An element is read from its start tag to its end tag. */
  lemma {:induction false} RunElement(e: Tree, tail: string, m: Machine, config: Config) returns (lastElem: string)
    requires e.Element? && IsName(e.name) && !HasColon(e.name) && PrintableAttrs(e.attrs) && Printable(e.kids)
    requires m.path != [] && m.plain && !(m.hasTopLevel && m.stack == [])
    requires m.cursor.state == ELEMENT && m.cursor.rest == ElementText(e, tail)
    ensures Run(m, config)
         == Run(Inside(Cursor(tail, CONTENT, lastElem), m.stack, Attach(m.path, [Reread(e)])), config)
    decreases e, 1
  {
    hide Run, Printable, PrintableAttrs, AllWs, Attach, Reparsed, IsName, HasColon, PrintOpenTag, PrintSiblings, EndTagText;
    NoWs();
    lastElem := RunElementWith(e, GapInside(e.kids), tail, m, config);
  }

  /** The same whatever white space comes first inside. */
  lemma {:induction false} RunElementWith(e: Tree, gap: string, tail: string, m: Machine, config: Config) returns (lastElem: string)
    requires e.Element? && IsName(e.name) && !HasColon(e.name) && PrintableAttrs(e.attrs) && Printable(e.kids)
    requires AllWs(gap) && (e.kids != [] && e.kids[0].TextNode? ==> gap == "")
    requires m.path != [] && m.plain && !(m.hasTopLevel && m.stack == []) && m.cursor.state == ELEMENT
    requires m.cursor.rest == PrintOpenTag(e.name, e.attrs) + ">" + (gap + PrintSiblings(e.kids) + EndTagText(e.name, tail))
    ensures Run(m, config)
         == Run(Inside(Cursor(tail, CONTENT, lastElem), m.stack, Attach(m.path, [Reread(e)])), config)
    decreases e, 0
  {
    hide Run, GetNextNode, PrintSiblings, Printable, PrintableAttrs, AllWs, Attach, Reparsed, IsName, HasColon, PrintOpenTag;
    var close := EndTagText(e.name, tail);
    var inner := gap + PrintSiblings(e.kids) + close;
    RunStartTag(m, config, e.name, e.attrs, inner);
    var stack := m.stack + [e.name];
    var path := m.path + [Frame(e.name, e.attrs, [])];
    var m1 := Inside(Cursor(inner, CONTENT, e.name), stack, path);
    assert "</" <= close;
    var ws, last := RunSiblings(e.kids, gap, close, m1, config);
    AttachToNew(m.path, Frame(e.name, e.attrs, []), Reparsed(e.kids));
    assert [] + Reparsed(e.kids) == Reparsed(e.kids);
    var m2 := Inside(Cursor(ws + close, CONTENT, last), stack, m.path + [Frame(e.name, e.attrs, Reparsed(e.kids))]);
    RunEndTag(m2, config, ws, e.name, tail, m.stack, m.path, e);
    lastElem := last;
  }

  lemma AttachToNew(path: seq<Frame>, frame: Frame, trees: seq<Tree>)
    ensures Attach(path + [frame], trees) == path + [frame.(kids := frame.kids + trees)]
  {
    assert (path + [frame])[..|path|] == path;
  }

  lemma RunEndTag(m: Machine, config: Config, ws: string, name: string, tail: string,
                  stack: seq<string>, path: seq<Frame>, e: Tree)
    requires e.Element? && name == e.name && IsName(name) && AllWs(ws) && path != []
    requires m == Inside(Cursor(ws + EndTagText(name, tail), CONTENT, m.cursor.lastElem), stack + [name],
                         path + [Frame(name, e.attrs, Reparsed(e.kids))])
    ensures Run(m, config)
         == Run(Inside(Cursor(tail, CONTENT, m.cursor.lastElem), stack, Attach(path, [Reread(e)])), config)
  {
    hide Run, GetNextNode, AllWs, IsName, Reparsed;
    var tag := EndTagText(name, tail);
    assert tag[0] == '<' && tag[1] == '/';
    RunToTag(m, config, ws, tag);
    var m1 := m.(cursor := m.cursor.(rest := tag, state := ELEMENT));
    ReadEndTag(m1.cursor, EnvOf(m1, config), name, tail);
    RunNode(m1, config, EndTag(name), m1.cursor.(rest := tail));
    CloseElement(m1.(cursor := m1.cursor.(rest := tail)), name, stack, path, e);
  }

  lemma CloseElement(m: Machine, name: string, stack: seq<string>, path: seq<Frame>, e: Tree)
    requires e.Element? && name == e.name && path != []
    requires m == Inside(m.cursor, stack + [name], path + [Frame(name, e.attrs, Reparsed(e.kids))])
    ensures Close(m, name)
         == Running(Inside(m.cursor.(state := CONTENT), stack, Attach(path, [Reread(e)])))
  {
    hide Reparsed;
    assert m.stack[..|stack|] == stack;
    assert m.path[..|path| - 1] == path[..|path| - 1];
  }

  // ----- the prolog -----

  lemma {:induction false} FindFirst(before: string, key: string, after: string)
    requires |key| == 2 && key[0] != key[1]
    requires forall i | 0 <= i < |before| :: before[i] != key[1]
    ensures Find(before + key + after, key) == |before|
  {
    var r := before + key + after;
    if before == "" {
      assert key <= r;
    } else {
      assert r[1] != key[1] by {
        if |before| == 1 {
          assert r[1] == key[0];
        } else {
          assert r[1] == before[1];
        }
      }
      assert r[1..] == before[1..] + key + after;
      FindFirst(before[1..], key, after);
    }
  }

  /** Nothing, or a tag that is no markup declaration. */
  predicate StartsBody(body: string) {
    body == "" || (AtTag(body) && !("<!DOCTYPE" <= body))
  }

  lemma SkipPrintedProlog(body: string)
    requires StartsBody(body)
    ensures SkipProlog(XML_PROLOG + body) == Scan(true, body)
  {
    var text := XML_PROLOG + body;
    var decl := "<?xml version=\"1.0\"";
    var ws := "\r\n";
    assert text == decl + "?>" + (ws + body);
    assert text[0] == '<' && "<?xml " <= text;
    FindFirst(decl, "?>", ws + body);
    assert text[|decl| + 2..] == ws + body;
    BodyIsNotMisc(body);
    SkipAllWs(ws, body);
    PrologFromParts(text, ws + body, body);
  }

  lemma BodyIsNotMisc(body: string)
    requires StartsBody(body)
    ensures SkipWs(body) == body && SkipMisc(body) == Scan(true, body) && (body == "" || !IsWs(body[0]))
  {
    if body == "" {
      NotMiscChar(body);
    } else {
      NotMisc(body);
    }
  }

  lemma PrologFromParts(text: string, rest: string, body: string)
    requires text != "" && text[0] == '<' && "<?xml " <= text && !("<!DOCTYPE" <= body)
    requires SkipString(text, "?>") == Scan(true, rest) && SkipWs(rest) == body && SkipMisc(body) == Scan(true, body)
    ensures SkipProlog(text) == Scan(true, body)
  {
    hide SkipString, SkipMisc;
  }

  // ----- whole documents -----

  predicate AllElements(kids: seq<Tree>) {
    forall i | 0 <= i < |kids| :: kids[i].Element?
  }

  /**
   The text printed for a document, whose children are elements, is accepted
   exactly when it has at most one root, and then gives back what the walk of
   the printer reaches, less the white-space-only text nodes.
   */
  lemma ParseOfPrint(kids: seq<Tree>, config: Config)
    requires AllElements(kids) && Printable(kids)
    ensures Parse(PrintDocument(kids), config) == if |kids| <= 1 then Accepted(Reparsed(kids)) else Rejected
  {
    hide Run, Printable, PrintSiblings, Reparsed, SkipProlog, ElementText, AtTag, IsName;
    var body := PrintSiblings(kids);
    var tail := "";
    if kids == [] {
      PrintNothing();
      SkipPrintedProlog(body);
      RunEmpty(config);
    } else {
      tail := GapAfter(kids) + PrintSiblings(kids[1..]) + "";
      PrintElementAsRead(kids, "");
      assert body + "" == body;
      PrintableElement(kids);
      ElementAtTag(kids[0], tail);
      SkipPrintedProlog(body);
      RunRoot(kids, tail, config);
    }
  }

  lemma PrintNothing()
    ensures PrintSiblings([]) == "" && Reparsed([]) == [] && StartsBody("")
  {
  }

  lemma RunEmpty(config: Config)
    ensures Run(Start(""), config) == Accepted([])
  {
  }

  lemma RunRoot(kids: seq<Tree>, tail: string, config: Config)
    requires kids != [] && AllElements(kids) && Printable(kids)
    requires PrintSiblings(kids) == ElementText(kids[0], tail)
    requires tail == GapAfter(kids) + PrintSiblings(kids[1..]) + ""
    ensures Run(Start(PrintSiblings(kids)), config) == if |kids| == 1 then Accepted(Reparsed(kids)) else Rejected
  {
    hide Run, Printable, PrintSiblings, Reparsed, ElementText, HasColon, IsName, PrintableAttrs;
    var e := kids[0];
    var m := Start(PrintSiblings(kids));
    PrintableElement(kids);
    var lastElem := RunElement(e, tail, m, config);
    var path := [Frame(DOCUMENT_NAME, [], [Reread(e)])];
    AttachRoot(Reread(e));
    var m1 := Inside(Cursor(tail, CONTENT, lastElem), [], path);
    if |kids| == 1 {
      PrintNothing();
      ReparsedElement(kids);
      assert tail == "\r\n";
      RunToEnd(m1, config);
    } else {
      SecondRoot(kids[1..], m1, config);
    }
  }

  lemma AttachRoot(root: Tree)
    ensures Attach(Start("").path, [root]) == [Frame(DOCUMENT_NAME, [], [root])]
  {
    assert Start("").path[..0] == [];
    assert [] + [root] == [root];
  }

  lemma RunToEnd(m: Machine, config: Config)
    requires m.path != [] && m.stack == [] && m.cursor.state == CONTENT && m.cursor.rest == "\r\n"
    ensures Run(m, config) == Accepted(m.path[0].kids)
  {
    hide GetNextNode;
    NoWs();
    ReadToEnd(m.cursor, EnvOf(m, config));
    RunNode(m, config, Nothing, m.cursor.(rest := ""));
    RunAtEnd(m.(cursor := m.cursor.(rest := "")), config);
  }

  lemma RunAtEnd(m: Machine, config: Config)
    requires m.path != [] && m.stack == [] && m.cursor.rest == ""
    ensures Run(m, config) == Accepted(m.path[0].kids)
  {
  }

  lemma SecondRoot(siblings: seq<Tree>, m: Machine, config: Config)
    requires siblings != [] && siblings[0].Element? && Printable(siblings)
    requires m.path != [] && m.stack == [] && m.hasTopLevel && m.plain && m.cursor.state == CONTENT
    requires m.cursor.rest == "\r\n" + PrintSiblings(siblings) + ""
    ensures Run(m, config) == Rejected
  {
    hide Run, GetNextNode, Printable, PrintSiblings, IsName, AtTag, ElementText, PrintableAttrs;
    var e := siblings[0];
    var tail := GapAfter(siblings) + PrintSiblings(siblings[1..]) + "";
    PrintElementAsRead(siblings, "");
    PrintableElement(siblings);
    ElementAtTag(e, tail);
    NoWs();
    Assoc("\r\n", PrintSiblings(siblings), "");
    RunToTag(m, config, "\r\n", ElementText(e, tail));
    var m1 := m.(cursor := m.cursor.(rest := ElementText(e, tail), state := ELEMENT));
    ReadAnyStartTag(m1.cursor, EnvOf(m1, config), e, tail);
    var got := GetNextNode(m1.cursor, EnvOf(m1, config));
    RunNode(m1, config, got.node, got.cursor);
  }

  lemma ReadAnyStartTag(c: Cursor, env: Env, e: Tree, tail: string)
    requires e.Element? && IsName(e.name) && PrintableAttrs(e.attrs)
    requires c.state == ELEMENT && c.rest == ElementText(e, tail)
    ensures var next := GetNextNode(c, env); next.Got? && next.node == StartTag(e.name)
  {
    hide GetNextNode, IsName, PrintSiblings, PrintAttrs, IsPlainAttribute, WellFormed, GapInside, AfterName;
    var inner := GapInside(e.kids) + PrintSiblings(e.kids) + EndTagText(e.name, tail);
    if e.attrs == [] {
      assert c.rest == "<" + e.name + ">" + inner;
      ReadBareStartTag(c, env, e.name, inner);
    } else {
      var rest := AfterName(e.attrs) + (">" + inner);
      PrintAttrsHead(e.attrs, ">" + inner);
      assert c.rest == "<" + e.name + (" " + PrintAttrs(e.attrs) + (">" + inner));
      ReadStartTagWithAttrs(c, env, e.name, e.attrs[0].name, rest);
    }
  }

  // ----- single nodes -----

  /** The text of one element, without the line breaks around it, is read back like that of a document. */
  lemma ParseOfPrintNode(e: Tree, config: Config)
    requires e.Element? && Printable([e])
    ensures Parse(PrintNode(e), config) == Accepted([Reread(e)])
  {
    hide Run, Printable, PrintableAttrs, AllWs, Reparsed, IsName, HasColon, PrintOpenTag, PrintSiblings, SkipProlog, AtTag, EndTagText, PrintNode;
    PrintableElement([e]);
    var text := PrintOpenTag(e.name, e.attrs) + ">" + ("" + PrintSiblings(e.kids) + EndTagText(e.name, ""));
    NodeTextParts(e, text);
    BareProlog(text);
    NoWs();
    var last := RunElementWith(e, "", "", Start(text), config);
    AttachRoot(Reread(e));
    RunAtEnd(Inside(Cursor("", CONTENT, last), [], [Frame(DOCUMENT_NAME, [], [Reread(e)])]), config);
  }

  lemma NodeTextParts(e: Tree, text: string)
    requires e.Element? && IsName(e.name)
    requires text == PrintOpenTag(e.name, e.attrs) + ">" + ("" + PrintSiblings(e.kids) + EndTagText(e.name, ""))
    ensures PrintNode(e) == text && AtTag(text) && !("<!DOCTYPE" <= text)
  {
    hide IsNameChar, PrintAttrs, PrintSiblings;
    NameFirst(e.name);
    NameStart(e.name);
    assert text[0] == '<' && text[1] == e.name[0];
    assert PrintOpenTag(e.name, e.attrs) + ">" + PrintSiblings(e.kids) + "</" + e.name + ">" == text;
  }

  /** A document may begin without a prolog. */
  lemma BareProlog(body: string)
    requires AtTag(body) && !("<!DOCTYPE" <= body)
    ensures SkipProlog(body) == Scan(true, body)
  {
    hide SkipMisc, SkipString, SkipDocType, SkipWs;
    NotMisc(body);
    assert !("<?xml " <= body);
  }

  // ----- when the document itself comes back -----

  /** Every element holds child elements followed by at most one text or CDATA node, no text being all white space. */
  predicate RoundTrips(siblings: seq<Tree>) {
    siblings == [] ||
    match siblings[0]
    case TextNode(value) => |siblings| == 1 && !AllWs(value)
    case CDataNode(_) => |siblings| == 1
    case Element(_, _, kids) => RoundTrips(kids) && RoundTrips(siblings[1..])
  }

  lemma {:induction false} ReparsedIsIdentity(siblings: seq<Tree>)
    ensures Reparsed(siblings) == siblings <==> RoundTrips(siblings)
  {
    if siblings != [] && siblings[0].Element? {
      ReparsedIsIdentity(siblings[0].kids);
      ReparsedIsIdentity(siblings[1..]);
      assert siblings == [siblings[0]] + siblings[1..];
      assert Reparsed(siblings)[1..] == Reparsed(siblings[1..]);
    }
  }

  /** Parsing the printed text gives back the document exactly when it has at most one root and round-trips inside. */
  lemma RoundTrip(kids: seq<Tree>, config: Config)
    requires AllElements(kids) && Printable(kids)
    ensures Parse(PrintDocument(kids), config) == Accepted(kids) <==> |kids| <= 1 && RoundTrips(kids)
  {
    hide Parse, PrintDocument, Printable, Reparsed, RoundTrips;
    ParseOfPrint(kids, config);
    ReparsedIsIdentity(kids);
  }

  lemma {:induction false} ReparsedIsStable(siblings: seq<Tree>)
    requires Printable(siblings)
    ensures RoundTrips(Reparsed(siblings)) && Printable(Reparsed(siblings))
    ensures AllElements(siblings) ==> AllElements(Reparsed(siblings)) && |Reparsed(siblings)| == |siblings|
  {
    if siblings != [] && siblings[0].Element? {
      hide IsName, HasColon, PrintableAttrs, WellFormed, IsCData;
      ReparsedIsStable(siblings[0].kids);
      ReparsedIsStable(siblings[1..]);
      assert Reparsed(siblings)[1..] == Reparsed(siblings[1..]);
      assert AllElements(siblings) ==> AllElements(siblings[1..]);
    }
  }

  /** What one pass loses is all that is ever lost: a document that came back comes back unchanged. */
  lemma SecondPassIsLossless(kids: seq<Tree>, config: Config)
    requires AllElements(kids) && Printable(kids) && |kids| <= 1
    ensures var once := Parse(PrintDocument(kids), config);
            once.Accepted? && Parse(PrintDocument(once.kids), config) == once
  {
    hide Parse, PrintDocument, Printable, Reparsed, RoundTrips;
    ParseOfPrint(kids, config);
    ReparsedIsStable(kids);
    RoundTrip(Reparsed(kids), config);
  }
}
