/**
 What the parse loop keeps, for every input: the element stack spells the path
 to the current node, `/>` always closes the innermost element, and a document
 that is accepted is the tree whose tags were read, each closed in LIFO order.
 */
module XmlInvariant {
  import opened Utf8
  import opened XmlNames
  import opened XmlText
  import opened XmlScan
  import opened XmlTokens
  import opened XmlTree
  import opened XmlMachine

  // ----- the invariant -----

  /** Read upwards, the stack is the node names from the current node up to, not including, the document. */
  predicate StackSpellsPath(m: Machine) {
    && |m.path| == |m.stack| + 1
    && m.path[0].nodeName == DOCUMENT_NAME
    && forall i | 0 <= i < |m.stack| :: m.path[i + 1].nodeName == m.stack[i]
  }

  /** The element on top was opened by the last start tag and is still without children. */
  predicate JustOpened(m: Machine) {
    && m.stack != [] && m.path != []
    && m.cursor.lastElem == m.stack[|m.stack| - 1] != ""
    && Top(m).kids == []
  }

  /** What the scanner state says about the text ahead and about the stack. */
  predicate StateAgrees(m: Machine) {
    match m.cursor.state
    case CONTENT => true
    case ATTRIBUTE => JustOpened(m)
    case ELEMENT =>
      || ("/>" <= m.cursor.rest && JustOpened(m))
      || AtTag(m.cursor.rest)
      || (m.stack == [] && m.cursor.lastElem == "")
  }

  predicate DistinctInside(trees: seq<Tree>) {
    forall t | t in trees :: t.Element? ==> DistinctNames(t.attrs) && DistinctInside(t.kids)
  }

  predicate PathDistinct(path: seq<Frame>) {
    forall f | f in path :: DistinctNames(f.attrs) && DistinctInside(f.kids)
  }

  /** At most one root, and `hasTopLevel` tells whether it has been opened. */
  predicate OneRoot(m: Machine) {
    && m.path != []
    && (forall t | t in m.path[0].kids :: t.Element?)
    && m.path[0].attrs == []
    && |m.path[0].kids| + (if m.stack == [] then 0 else 1) == (if m.hasTopLevel then 1 else 0)
  }

  predicate Inv(m: Machine) {
    StackSpellsPath(m) && StateAgrees(m) && OneRoot(m) && PathDistinct(m.path)
  }

  lemma StartInv(rest: string)
    ensures Inv(Start(rest))
  {
  }

  // ----- the scanner -----

  /** How a node that is read fits the state it was read in. */
  predicate Fits(c: Cursor, inElement: bool, node: NewNode, after: Cursor) {
    match node
    case Nothing =>
      && after.lastElem == c.lastElem
      && (c.state == CONTENT ==> after.state == CONTENT || (after.state == ELEMENT && AtTag(after.rest)))
      && (c.state != CONTENT ==> after.state == c.state)
      && (c.state == ELEMENT ==> !("/>" <= c.rest) && !AtTag(c.rest))
    case StartTag(name) =>
      after.lastElem == name != "" && (after.state == ELEMENT ==> "/>" <= after.rest)
    case Attribute(_, _) =>
      c.state == ATTRIBUTE && inElement && after.lastElem == c.lastElem && after.state != ELEMENT
    case Text(_) => c.state == CONTENT && after.state == CONTENT
    case CData(_) => c.state == CONTENT && after.state == CONTENT
    case EndTag(_) => true
  }

  lemma NodeFits(c: Cursor, env: Env)
    requires c.rest != ""
    ensures var next := GetNextNode(c, env); next.Got? ==> Fits(c, env.inElement, next.node, next.cursor)
  {
    if c.state == CONTENT {
      ContentFits(c, env);
    } else {
      TagFits(c, env);
    }
  }

  lemma ContentFits(c: Cursor, env: Env)
    requires c.rest != "" && c.state == CONTENT
    ensures var next := GetNextNode(c, env); next.Got? ==> Fits(c, env.inElement, next.node, next.cursor)
  {
    hide SkipWs, SkipComment, SkipPI, CDataLength, TextLength, CopyToken;
  }

  lemma TagFits(c: Cursor, env: Env)
    requires c.rest != "" && c.state != CONTENT
    ensures var next := GetNextNode(c, env); next.Got? ==> Fits(c, env.inElement, next.node, next.cursor)
  {
    hide GetNextToken, SkipWs, CopyToken, Find, NoLessThan, IsNameChar, Utf8ToInt;
    if "/>" <= c.rest {
      SlashToken(c.rest, env.errorChar);
    } else if AtTag(c.rest) {
      TagToken(c.rest, env.errorChar);
    }
    var t := GetNextToken(SkipWs(c.rest), env.errorChar);
    var name := GetNextToken(t.rest, env.errorChar);
    SlashText(name.rest, env.errorChar);
  }

  // ----- one turn -----

  lemma StepKeepsInv(m: Machine, config: Config)
    requires Inv(m)
    ensures var t := Step(m, config); t.Running? ==> Inv(t.machine)
  {
    hide GetNextNode, Inv, Apply;
    var env := EnvOf(m, config);
    FileDoneAtEnd(m.cursor, env);
    match GetNextNode(m.cursor, env) {
      case Got(node, cursor) =>
        NodeFits(m.cursor, env);
        ApplyKeepsInv(m, node, cursor);
      case _ =>
    }
  }

  lemma ApplyKeepsInv(m: Machine, node: NewNode, cursor: Cursor)
    requires Inv(m) && Fits(m.cursor, m.stack != [], node, cursor)
    ensures var t := Apply(m.(cursor := cursor), node); t.Running? ==> Inv(t.machine)
  {
    match node {
      case Nothing =>
      case StartTag(name) => OpenKeepsInv(m, name, cursor);
      case Attribute(name, value) => AddAttributeKeepsInv(m, name, value, cursor);
      case Text(value) => AppendLeafKeepsInv(m, TextNode(value), cursor);
      case CData(value) => AppendLeafKeepsInv(m, CDataNode(value), cursor);
      case EndTag(name) => CloseKeepsInv(m, name, cursor);
    }
  }

  lemma OpenKeepsInv(m: Machine, name: string, cursor: Cursor)
    requires Inv(m) && cursor.lastElem == name != "" && (cursor.state == ELEMENT ==> "/>" <= cursor.rest)
    ensures var t := Open(m.(cursor := cursor), name); t.Running? ==> Inv(t.machine)
  {
  }

  lemma AddAttributeKeepsInv(m: Machine, name: string, value: string, cursor: Cursor)
    requires Inv(m) && Fits(m.cursor, m.stack != [], Attribute(name, value), cursor)
    ensures var t := AddAttribute(m.(cursor := cursor), name, value); t.Running? ==> Inv(t.machine)
  {
  }

  lemma AppendLeafKeepsInv(m: Machine, leaf: Tree, cursor: Cursor)
    requires Inv(m) && !leaf.Element? && cursor.state == CONTENT
    ensures var t := AppendLeaf(m.(cursor := cursor), leaf); t.Running? ==> Inv(t.machine)
  {
  }

  lemma CloseKeepsInv(m: Machine, name: string, cursor: Cursor)
    requires Inv(m)
    ensures var t := Close(m.(cursor := cursor), name); t.Running? ==> Inv(t.machine)
  {
  }

  // ----- end tags -----

  /** With an element open, an end tag that passes the stack check also passes the check against the current node. */
  lemma SecondCheckIsImplied(m: Machine, name: string)
    requires Inv(m) && m.stack != []
    ensures Close(m, name).Running? <==> name == m.stack[|m.stack| - 1]
    ensures Close(m, name).Running? ==> Close(m, name).machine.stack == m.stack[..|m.stack| - 1]
  {
  }

  /** With an element open, `/>` is never refused and closes the innermost element. */
  lemma SlashClosesInnermost(m: Machine, config: Config)
    requires Inv(m) && m.stack != [] && m.cursor.rest != "" && m.cursor.state != CONTENT
    requires GetNextToken(SkipWs(m.cursor.rest), config.errorChar).text == "/>"
    ensures var t := Step(m, config);
            t.Running? && t.machine.stack == m.stack[..|m.stack| - 1] && t.machine.path == Leave(m).path
  {
    hide *;
    SlashMeansJustOpened(m, config.errorChar);
    SlashCloses(m, config);
  }

  lemma SlashCloses(m: Machine, config: Config)
    requires Inv(m) && JustOpened(m) && m.cursor.rest != "" && m.cursor.state != CONTENT
    requires GetNextToken(SkipWs(m.cursor.rest), config.errorChar).text == "/>"
    ensures var t := Step(m, config);
            t.Running? && t.machine.stack == m.stack[..|m.stack| - 1] && t.machine.path == Leave(m).path
  {
    hide GetNextToken, SkipWs, GetNextNode, StateAgrees, OneRoot, PathDistinct;
    SlashNode(m.cursor, EnvOf(m, config));
  }

  lemma SlashMeansJustOpened(m: Machine, errorChar: ErrorChar)
    requires Inv(m) && m.stack != [] && m.cursor.state != CONTENT
    requires GetNextToken(SkipWs(m.cursor.rest), errorChar).text == "/>"
    ensures JustOpened(m)
  {
    hide GetNextToken, SkipWs, AtTag;
    if AtTag(m.cursor.rest) {
      TagToken(m.cursor.rest, errorChar);
    }
  }

  lemma SlashNode(c: Cursor, env: Env)
    requires c.rest != "" && c.state != CONTENT && c.lastElem != ""
    requires GetNextToken(SkipWs(c.rest), env.errorChar).text == "/>"
    ensures GetNextNode(c, env) == Got(EndTag(c.lastElem), c.(rest := GetNextToken(SkipWs(c.rest), env.errorChar).rest))
  {
    hide GetNextToken, SkipWs;
  }

  // ----- whole runs -----

  /** The nodes that the scanner delivers, up to the turn that stops the loop. */
  function Trace(m: Machine, config: Config): seq<NewNode>
    requires m.path != []
    decreases |m.cursor.rest|, Weight(m.cursor.state)
  {
    StepProgress(m, config);
    match Step(m, config)
    case Stopped(_) => []
    case Running(next) =>
      var node := GetNextNode(m.cursor, EnvOf(m, config)).node;
      (if node == Nothing then [] else [node]) + Trace(next, config)
  }

  function AttrNodes(attrs: seq<Attr>): seq<NewNode> {
    if attrs == [] then [] else [Attribute(attrs[0].name, attrs[0].value)] + AttrNodes(attrs[1..])
  }

  /** The nodes that spell a sequence of trees: every start tag is closed by its own end tag, in LIFO order. */
  function Spell(trees: seq<Tree>): seq<NewNode> {
    if trees == [] then []
    else
      (match trees[0]
       case TextNode(value) => [Text(value)]
       case CDataNode(value) => [CData(value)]
       case Element(name, attrs, kids) =>
         [StartTag(name)] + AttrNodes(attrs) + Spell(kids) + [EndTag(name)])
      + Spell(trees[1..])
  }

  /** The nodes that spell an unfinished path: its start tags are not closed yet. */
  function SpellPath(path: seq<Frame>): seq<NewNode> {
    if path == [] then []
    else SpellPath(path[..|path| - 1]) + SpellFrame(path[|path| - 1], |path| == 1)
  }

  function SpellFrame(f: Frame, isDocument: bool): seq<NewNode> {
    (if isDocument then [] else [StartTag(f.nodeName)] + AttrNodes(f.attrs)) + Spell(f.kids)
  }

  lemma {:induction false} SpellConcat(a: seq<Tree>, b: seq<Tree>)
    ensures Spell(a + b) == Spell(a) + Spell(b)
  {
    if a == [] {
      assert a + b == b;
    } else {
      assert (a + b)[1..] == a[1..] + b;
      SpellConcat(a[1..], b);
    }
  }

  lemma {:induction false} AttrNodesConcat(a: seq<Attr>, b: seq<Attr>)
    ensures AttrNodes(a + b) == AttrNodes(a) + AttrNodes(b)
  {
    if a == [] {
      assert a + b == b;
    } else {
      assert (a + b)[1..] == a[1..] + b;
      AttrNodesConcat(a[1..], b);
    }
  }

  lemma SpellPathSnoc(base: seq<Frame>, top: Frame)
    ensures SpellPath(base + [top]) == SpellPath(base) + SpellFrame(top, base == [])
  {
    assert (base + [top])[..|base|] == base;
  }

  /** Each node that is applied is the next one in the spelling of the tree under construction. */
  lemma ApplySpells(m: Machine, node: NewNode, cursor: Cursor)
    requires Inv(m) && Fits(m.cursor, m.stack != [], node, cursor)
    ensures var t := Apply(m.(cursor := cursor), node);
            t.Running? ==> SpellPath(t.machine.path) == SpellPath(m.path) + (if node == Nothing then [] else [node])
  {
    hide Inv, SpellPath, Spell, Open, AddAttribute, AppendLeaf, Close;
    match node {
      case Nothing =>
      case StartTag(name) => OpenSpells(m, name, cursor);
      case Attribute(name, value) => AddAttributeSpells(m, name, value, cursor);
      case Text(value) => SpellLeaf(value); AppendLeafSpells(m, TextNode(value), cursor);
      case CData(value) => SpellLeaf(value); AppendLeafSpells(m, CDataNode(value), cursor);
      case EndTag(name) => CloseSpells(m, name, cursor);
    }
  }

  lemma SpellLeaf(value: string)
    ensures Spell([TextNode(value)]) == [Text(value)] && Spell([CDataNode(value)]) == [CData(value)]
  {
  }

  lemma OpenSpells(m: Machine, name: string, cursor: Cursor)
    requires Inv(m)
    ensures var t := Open(m.(cursor := cursor), name);
            t.Running? ==> SpellPath(t.machine.path) == SpellPath(m.path) + [StartTag(name)]
  {
    hide SpellPath, StateAgrees, PathDistinct, OneRoot;
    SpellPathSnoc(m.path, Frame(name, [], []));
    assert SpellFrame(Frame(name, [], []), false) == [StartTag(name)];
  }

  lemma AddAttributeSpells(m: Machine, name: string, value: string, cursor: Cursor)
    requires Inv(m) && Fits(m.cursor, m.stack != [], Attribute(name, value), cursor)
    ensures var t := AddAttribute(m.(cursor := cursor), name, value);
            t.Running? ==> SpellPath(t.machine.path) == SpellPath(m.path) + [Attribute(name, value)]
  {
    hide SpellPath, PathDistinct, OneRoot, HasAttr;
    var base, top := m.path[..|m.path| - 1], Top(m);
    assert m.path == base + [top];
    AttributeSpells(base, top, Attr(name, value));
  }

  lemma AppendLeafSpells(m: Machine, leaf: Tree, cursor: Cursor)
    requires Inv(m)
    ensures var t := AppendLeaf(m.(cursor := cursor), leaf);
            t.Running? ==> SpellPath(t.machine.path) == SpellPath(m.path) + Spell([leaf])
  {
    hide SpellPath, Spell, StateAgrees, PathDistinct, OneRoot;
    var base, top := m.path[..|m.path| - 1], Top(m);
    assert m.path == base + [top];
    LeafSpells(base, top, leaf);
  }

  lemma AttrNodesSingle(a: Attr)
    ensures AttrNodes([a]) == [Attribute(a.name, a.value)]
  {
  }

  lemma AttributeSpells(base: seq<Frame>, top: Frame, a: Attr)
    requires base != [] && top.kids == []
    ensures SpellPath(base + [top.(attrs := top.attrs + [a])])
         == SpellPath(base + [top]) + [Attribute(a.name, a.value)]
  {
    hide SpellPath, AttrNodes;
    SpellPathSnoc(base, top);
    SpellPathSnoc(base, top.(attrs := top.attrs + [a]));
    AttrNodesConcat(top.attrs, [a]);
    AttrNodesSingle(a);
  }

  lemma LeafSpells(base: seq<Frame>, top: Frame, leaf: Tree)
    ensures SpellPath(base + [top.(kids := top.kids + [leaf])]) == SpellPath(base + [top]) + Spell([leaf])
  {
    hide SpellPath, Spell, AttrNodes;
    SpellPathSnoc(base, top);
    SpellPathSnoc(base, top.(kids := top.kids + [leaf]));
    SpellConcat(top.kids, [leaf]);
  }

  lemma CloseSpells(m: Machine, name: string, cursor: Cursor)
    requires Inv(m)
    ensures var t := Close(m.(cursor := cursor), name);
            t.Running? ==> SpellPath(t.machine.path) == SpellPath(m.path) + [EndTag(name)]
  {
    hide SpellPath;
    var n := |m.path|;
    var t := Close(m.(cursor := cursor), name);
    if t.Running? {
      var base, parent, done := m.path[..n - 2], m.path[n - 2], Top(m);
      assert m.path == base + [parent] + [done];
      assert done.nodeName == name;
      ElementSpells(base, parent, done);
    }
  }

  /** Moving a finished element into its parent adds its end tag to the spelling. */
  lemma ElementSpells(base: seq<Frame>, parent: Frame, done: Frame)
    ensures var element := Element(done.nodeName, done.attrs, done.kids);
            SpellPath(base + [parent.(kids := parent.kids + [element])])
            == SpellPath(base + [parent] + [done]) + [EndTag(done.nodeName)]
  {
    hide SpellPath, Spell, AttrNodes;
    var element := Element(done.nodeName, done.attrs, done.kids);
    LeafSpells(base, parent, element);
    SpellPathSnoc(base + [parent], done);
    SpellElement(element);
  }

  lemma SpellElement(e: Tree)
    requires e.Element?
    ensures Spell([e]) == [StartTag(e.name)] + AttrNodes(e.attrs) + Spell(e.kids) + [EndTag(e.name)]
  {
    assert [e][1..] == [];
  }

  /** What may be said of the children of the document when it is accepted. */
  predicate SoundDocument(kids: seq<Tree>) {
    |kids| <= 1 && (forall t | t in kids :: t.Element?) && DistinctInside(kids)
  }

  lemma StepSpells(m: Machine, config: Config)
    requires Inv(m)
    ensures var next := GetNextNode(m.cursor, EnvOf(m, config));
            match Step(m, config)
            case Stopped(Accepted(kids)) => SpellPath(m.path) == Spell(kids) && SoundDocument(kids)
            case Stopped(_) => true
            case Running(m') =>
              next.Got? && SpellPath(m'.path) == SpellPath(m.path) + (if next.node == Nothing then [] else [next.node])
  {
    hide GetNextNode, Apply, Inv, Fits, SpellPath, Spell, SoundDocument;
    var env := EnvOf(m, config);
    FileDoneAtEnd(m.cursor, env);
    match GetNextNode(m.cursor, env) {
      case FileDone =>
        DoneSpells(m);
      case Failed =>
      case Got(node, cursor) =>
        NodeFits(m.cursor, env);
        ApplySpells(m, node, cursor);
        PathNonEmpty(m);
        ApplyNeverAccepts(m.(cursor := cursor), node);
    }
  }

  lemma DoneSpells(m: Machine)
    requires Inv(m)
    ensures m.stack == [] ==> SpellPath(m.path) == Spell(m.path[0].kids) && SoundDocument(m.path[0].kids)
  {
    hide Spell, DistinctInside, DistinctNames;
    if m.stack == [] {
      assert m.path == [m.path[0]];
      SpellDocument(m.path[0]);
      assert m.path[0] in m.path;
    }
  }

  lemma SpellDocument(document: Frame)
    ensures SpellPath([document]) == Spell(document.kids)
  {
    hide Spell;
    assert [document][..0] == [];
  }

  /** The nodes that were read are, in order, the spelling of what they built. */
  lemma {:induction false} RunSpells(m: Machine, config: Config)
    requires Inv(m)
    ensures var o := Run(m, config);
            o.Accepted? ==> SpellPath(m.path) + Trace(m, config) == Spell(o.kids) && SoundDocument(o.kids)
    decreases |m.cursor.rest|, Weight(m.cursor.state)
  {
    hide GetNextNode, Apply, Inv, SpellPath, Spell, SoundDocument, Step;
    PathNonEmpty(m);
    StepProgress(m, config);
    StepKeepsInv(m, config);
    StepSpells(m, config);
    match Step(m, config) {
      case Stopped(outcome) =>
      case Running(next) => RunSpells(next, config);
    }
  }

  lemma PathNonEmpty(m: Machine)
    requires Inv(m)
    ensures m.path != []
  {
    hide SkipProlog, Trace, Run, Spell, SoundDocument, SpellPath;
  }

  /**
   For every input: a document is accepted only if the nodes read from it are
   the spelling of the tree that is returned, which has at most one root, an
   element, and no element with two attributes of the same name.
   */
  lemma AcceptanceMeansLifo(text: string, config: Config)
    ensures var o := Parse(text, config); var prolog := SkipProlog(text);
            o.Accepted? ==> prolog.ok && Trace(Start(prolog.rest), config) == Spell(o.kids) && SoundDocument(o.kids)
  {
    var prolog := SkipProlog(text);
    if prolog.ok {
      StartInv(prolog.rest);
      RunSpells(Start(prolog.rest), config);
      StartSpells(prolog.rest);
    }
  }

  lemma StartSpells(rest: string)
    ensures SpellPath(Start(rest).path) == []
  {
    assert Start(rest).path[..0] == [];
  }
}
