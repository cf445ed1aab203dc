/**
 The printing functions of ixml.c, which walk the nodes and append to a buffer.
 */
module DomPrint {
  import opened Dom
  import opened DomOps
  import opened DomView
  import opened DomWalk
  import opened Membufs
  import opened XmlText
  import opened XmlTree

  /** What ixmlPrintDomTreeRecursive prints from `n` on: the children of a document, or else a node with its later siblings. */
  ghost function PrintedFrom(g: Graph, m: Contents, r: Steps, n: Node?): string
    requires Walkable(g, m, r) && (n != null ==> n in g)
  {
    if n != null && m[n].nodeType.eDOCUMENT_NODE? then
      WalkAt(g, m, r, n);
      PrintSiblings(Forest(g, m, r, g[n].first))
    else PrintSiblings(Forest(g, m, r, n))
  }

  function ClosingBracket(gap: bool): string {
    if gap then ">\r\n" else ">"
  }

  ghost predicate IsOfType(m: Contents, n: Node?, t: NodeType) {
    n != null && n in m && m[n].nodeType == t
  }

  ghost function HeadText(g: Graph, m: Contents, n: Node): string
    requires n in g && n in m
  {
    PrintOpenTag(m[n].name, m[n].attrs) + ClosingBracket(IsOfType(m, g[n].first, eELEMENT_NODE))
  }

  ghost function TailText(g: Graph, m: Contents, n: Node): string
    requires n in g && n in m
  {
    "</" + m[n].name + ClosingBracket(!IsOfType(m, g[n].next, eTEXT_NODE))
  }

  /** The first tree has the type that `n` has. */
  lemma FirstOfForest(g: Graph, m: Contents, r: Steps, n: Node?)
    requires Walkable(g, m, r) && (n != null ==> n in g && n in m && !m[n].nodeType.eDOCUMENT_NODE?)
    ensures var s := Forest(g, m, r, n);
            && (n == null <==> s == [])
            && (n != null ==> (IsOfType(m, n, eELEMENT_NODE) <==> s[0].Element?) && (IsOfType(m, n, eTEXT_NODE) <==> s[0].TextNode?))
            && PrintedFrom(g, m, r, n) == PrintSiblings(s)
  {
    hide Walkable, Forest, TreeOf, PrintSiblings;
    if n != null {
      ForestUnfolds(g, m, r, n);
    } else {
      NoForest(g, m, r);
    }
  }

  /** An element among its siblings, with the brackets chosen from the types of the nodes next to them. */
  lemma PrintElement(g: Graph, m: Contents, r: Steps, n: Node)
    requires Walkable(g, m, r) && n in g && n in m && m[n].nodeType.eELEMENT_NODE?
    ensures (g[n].first != null ==> g[n].first in g) && (g[n].next != null ==> g[n].next in g)
    ensures PrintedFrom(g, m, r, n) ==
            HeadText(g, m, n) + PrintedFrom(g, m, r, g[n].first) + TailText(g, m, n) + PrintedFrom(g, m, r, g[n].next)
  {
    hide *;
    ElementAmongSiblings(g, m, r, n);
    FirstOfForest(g, m, r, n);
    FirstOfForest(g, m, r, g[n].first);
    FirstOfForest(g, m, r, g[n].next);
    HeadOfTree(g, m, r, n);
    TailOfTree(g, m, r, n);
    PrintElementText(Forest(g, m, r, n));
  }

  lemma ElementAmongSiblings(g: Graph, m: Contents, r: Steps, n: Node)
    requires Walkable(g, m, r) && n in g && n in m && m[n].nodeType.eELEMENT_NODE?
    ensures m.Keys == g.Keys && !m[n].nodeType.eDOCUMENT_NODE?
    ensures g[n].first != null ==> g[n].first in g && !m[g[n].first].nodeType.eDOCUMENT_NODE?
    ensures g[n].next != null ==> g[n].next in g && !m[g[n].next].nodeType.eDOCUMENT_NODE?
    ensures var siblings := Forest(g, m, r, n);
            && siblings != []
            && siblings[0] == Element(m[n].name, m[n].attrs, Forest(g, m, r, g[n].first))
            && siblings[1..] == Forest(g, m, r, g[n].next)
  {
    hide Walkable, Forest, TreeOf;
    ForestUnfolds(g, m, r, n);
  }

  function TreeHead(element: Tree): string
    requires element.Element?
  {
    PrintOpenTag(element.name, element.attrs) + (">" + GapInside(element.kids))
  }

  function TreeTail(siblings: seq<Tree>): string
    requires siblings != [] && siblings[0].Element?
  {
    "</" + siblings[0].name + (">" + GapAfter(siblings))
  }

  lemma HeadOfTree(g: Graph, m: Contents, r: Steps, n: Node)
    requires Walkable(g, m, r) && n in g && n in m && m[n].nodeType.eELEMENT_NODE?
    ensures Forest(g, m, r, n) != [] && Forest(g, m, r, n)[0].Element?
    ensures HeadText(g, m, n) == TreeHead(Forest(g, m, r, n)[0])
  {
    hide Walkable, Forest, TreeOf, PrintOpenTag;
    ElementAmongSiblings(g, m, r, n);
    FirstOfForest(g, m, r, g[n].first);
  }

  lemma TailOfTree(g: Graph, m: Contents, r: Steps, n: Node)
    requires Walkable(g, m, r) && n in g && n in m && m[n].nodeType.eELEMENT_NODE?
    ensures Forest(g, m, r, n) != [] && Forest(g, m, r, n)[0].Element?
    ensures TailText(g, m, n) == TreeTail(Forest(g, m, r, n))
  {
    hide Walkable, Forest, TreeOf, PrintOpenTag;
    ElementAmongSiblings(g, m, r, n);
    FirstOfForest(g, m, r, g[n].next);
    var siblings := Forest(g, m, r, n);
    assert |siblings| > 1 ==> siblings[1] == siblings[1..][0];
  }

  lemma PrintElementText(siblings: seq<Tree>)
    requires siblings != [] && siblings[0].Element?
    ensures PrintSiblings(siblings) ==
            TreeHead(siblings[0]) + PrintSiblings(siblings[0].kids) + TreeTail(siblings) + PrintSiblings(siblings[1..])
  {
    hide PrintOpenTag, GapInside, GapAfter;
    var t := siblings[0];
    TextParts(PrintOpenTag(t.name, t.attrs), GapInside(t.kids), PrintSiblings(t.kids), t.name, GapAfter(siblings),
              PrintSiblings(siblings[1..]));
  }

  lemma TextParts(open: string, gap: string, kids: string, name: string, gapAfter: string, rest: string)
    ensures open + (">" + gap) + kids + "</" + name + (">" + gapAfter) + rest
         == (open + (">" + gap)) + kids + ("</" + name + (">" + gapAfter)) + rest
  {
  }

  /** The attribute branch of ixmlPrintDomTreeRecursive. */
  method PrintAttributes(attrs: seq<Attr>, buf: Membuf)
    requires attrs != [] && buf.Valid()
    modifies buf, buf.buf
    ensures buf.Valid() && (buf.buf == old(buf.buf) || fresh(buf.buf))
    ensures buf.Contents() == old(buf.Contents()) + PrintAttrs(attrs)
    decreases |attrs|
  {
    hide *;
    ghost var was := buf.Contents();
    buf.AppendStr(attrs[0].name);
    buf.AppendStr("=\"");
    CopyWithEscape(buf, attrs[0].value);
    buf.AppendStr("\"");
    if |attrs| > 1 {
      buf.AppendStr(" ");
      PrintAttributes(attrs[1..], buf);
    }
    AttributesText(was, attrs);
  }

  lemma AttributesText(was: string, attrs: seq<Attr>)
    requires attrs != []
    ensures var one := was + attrs[0].name + "=\"" + Escape(attrs[0].value) + "\"";
            was + PrintAttrs(attrs) == if |attrs| == 1 then one else one + " " + PrintAttrs(attrs[1..])
  {
    hide Escape, PrintAttrs;
    var rest := if |attrs| == 1 then "" else " " + PrintAttrs(attrs[1..]);
    AttributeText(attrs);
    RegroupFive(was, attrs[0].name, "=\"", Escape(attrs[0].value), "\"", rest);
    if |attrs| > 1 {
      RegroupTwo(was + attrs[0].name + "=\"" + Escape(attrs[0].value) + "\"", " ", PrintAttrs(attrs[1..]));
    }
  }

  lemma AttributeText(attrs: seq<Attr>)
    requires attrs != []
    ensures PrintAttrs(attrs) == attrs[0].name + "=\"" + Escape(attrs[0].value) + "\""
                                 + if |attrs| == 1 then "" else " " + PrintAttrs(attrs[1..])
  {
    hide Escape;
  }

  lemma RegroupTwo(was: string, a: string, b: string)
    ensures was + a + b == was + (a + b)
  {
  }

  lemma RegroupFive(was: string, a: string, b: string, c: string, d: string, e: string)
    ensures was + a + b + c + d + e == was + (a + b + c + d + e)
  {
  }

  /** A start tag up to its closing bracket. */
  method PrintStart(n: Node, buf: Membuf)
    requires buf.Valid()
    modifies buf, buf.buf
    ensures buf.Valid() && (buf.buf == old(buf.buf) || fresh(buf.buf))
    ensures buf.Contents() == old(buf.Contents()) + PrintOpenTag(n.nodeName, n.attributes)
  {
    hide *;
    ghost var was := buf.Contents();
    StartText(was, n.nodeName, n.attributes);
    buf.AppendStr("<");
    buf.AppendStr(n.nodeName);
    if n.attributes != [] {
      buf.AppendStr(" ");
      PrintAttributes(n.attributes, buf);
    }
  }

  lemma StartText(was: string, name: string, attrs: seq<Attr>)
    ensures was + PrintOpenTag(name, attrs) ==
            if attrs == [] then was + "<" + name else was + "<" + name + " " + PrintAttrs(attrs)
  {
    hide PrintAttrs;
  }

  lemma Regroup(was: string, head: string, kids: string, tail: string, rest: string)
    ensures was + head + kids + tail + rest == was + (head + kids + tail + rest)
  {
  }

  /** The start tag, with a line break when an element comes first inside. */
  method PrintHead(n: Node, buf: Membuf, ghost S: set<Node>, ghost g: Graph, ghost m: Contents)
    requires Snapshot(S, g, m) && n in S && n in g && n in m && InUse(n.firstChild, S) && buf.Valid()
    modifies buf, buf.buf
    ensures buf.Valid() && (buf.buf == old(buf.buf) || fresh(buf.buf))
    ensures buf.Contents() == old(buf.Contents()) + HeadText(g, m, n)
  {
    hide Snapshot, PrintOpenTag, ClosingBracket, Membuf.Valid, Membuf.Contents;
    SnapshotAt(S, g, m, n);
    if n.firstChild != null {
      SnapshotAt(S, g, m, n.firstChild);
    }
    ghost var was := buf.Contents();
    PrintStart(n, buf);
    var child := n.firstChild;
    var gap := child != null && child.nodeType == eELEMENT_NODE;
    buf.AppendStr(ClosingBracket(gap));
    RegroupTwo(was, PrintOpenTag(n.nodeName, n.attributes), ClosingBracket(gap));
  }

  /** The end tag, with a line break unless text comes next. */
  method PrintTail(n: Node, buf: Membuf, ghost S: set<Node>, ghost g: Graph, ghost m: Contents)
    requires Snapshot(S, g, m) && n in S && n in g && n in m && InUse(n.nextSibling, S) && buf.Valid()
    modifies buf, buf.buf
    ensures buf.Valid() && (buf.buf == old(buf.buf) || fresh(buf.buf))
    ensures buf.Contents() == old(buf.Contents()) + TailText(g, m, n)
  {
    hide Snapshot, ClosingBracket, Membuf.Valid, Membuf.Contents;
    SnapshotAt(S, g, m, n);
    if n.nextSibling != null {
      SnapshotAt(S, g, m, n.nextSibling);
    }
    ghost var was := buf.Contents();
    buf.AppendStr("</");
    buf.AppendStr(n.nodeName);
    var sibling := n.nextSibling;
    var gap := !(sibling != null && sibling.nodeType == eTEXT_NODE);
    buf.AppendStr(ClosingBracket(gap));
    RegroupTwo(was, "</", n.nodeName);
    RegroupTwo(was, "</" + n.nodeName, ClosingBracket(gap));
  }

  /** What the recursion needs to know of one node. */
  lemma StepFacts(S: set<Node>, g: Graph, m: Contents, r: Steps, n: Node)
    requires Snapshot(S, g, m) && Walkable(g, m, r) && n in S
    ensures g.Keys == m.Keys == r.Keys == S && g[n] == LinksOf(n) && m[n] == ContentOf(n)
    ensures n.nodeType.eELEMENT_NODE? || n.nodeType.eTEXT_NODE? || n.nodeType.eCDATA_SECTION_NODE? || n.nodeType.eDOCUMENT_NODE?
    ensures InUse(n.firstChild, S) && InUse(n.nextSibling, S)
    ensures Ahead(r, n.firstChild) < Ahead(r, n) && Ahead(r, n.nextSibling) < Ahead(r, n)
    ensures n.nodeType.eTEXT_NODE? ==> PrintedFrom(g, m, r, n) == Escape(n.nodeValue)
    ensures n.nodeType.eCDATA_SECTION_NODE? ==> PrintedFrom(g, m, r, n) == "<![CDATA[" + n.nodeValue + "]]>"
    ensures n.nodeType.eDOCUMENT_NODE? ==> PrintedFrom(g, m, r, n) == PrintedFrom(g, m, r, n.firstChild)
  {
    hide Walkable, Forest, TreeOf, Escape;
    SnapshotAt(S, g, m, n);
    ForestUnfolds(g, m, r, n);
  }

  /** ixmlPrintDomTreeRecursive. */
  method PrintDomTreeRecursive(nodeptr: Node?, buf: Membuf, ghost S: set<Node>, ghost g: Graph, ghost m: Contents, ghost r: Steps)
    requires Snapshot(S, g, m) && Walkable(g, m, r) && buf.Valid()
    requires nodeptr != null ==> nodeptr in S && nodeptr in g
    modifies buf, buf.buf
    ensures buf.Valid() && (buf.buf == old(buf.buf) || fresh(buf.buf))
    ensures buf.Contents() == old(buf.Contents()) + PrintedFrom(g, m, r, nodeptr)
    decreases Ahead(r, nodeptr), 1
  {
    hide Snapshot, Walkable, PrintedFrom, HeadText, TailText, Escape, Membuf.Valid, Membuf.Contents, Ahead;
    ghost var was := buf.Contents();
    if nodeptr == null {
      PrintedNothing(g, m, r);
      return;
    }
    StepFacts(S, g, m, r, nodeptr);
    if nodeptr.nodeType == eTEXT_NODE {
      CopyWithEscape(buf, nodeptr.nodeValue);
    } else if nodeptr.nodeType == eCDATA_SECTION_NODE {
      PrintCData(nodeptr, buf);
    } else if nodeptr.nodeType == eDOCUMENT_NODE {
      PrintDomTreeRecursive(nodeptr.firstChild, buf, S, g, m, r);
    } else {
      PrintElementNode(nodeptr, buf, S, g, m, r);
    }
  }

  /** The CDATA branch of ixmlPrintDomTreeRecursive. */
  method PrintCData(n: Node, buf: Membuf)
    requires buf.Valid()
    modifies buf, buf.buf
    ensures buf.Valid() && (buf.buf == old(buf.buf) || fresh(buf.buf))
    ensures buf.Contents() == old(buf.Contents()) + ("<![CDATA[" + n.nodeValue + "]]>")
  {
    hide *;
    ghost var was := buf.Contents();
    buf.AppendStr("<![CDATA[");
    buf.AppendStr(n.nodeValue);
    buf.AppendStr("]]>");
    assert was + "<![CDATA[" + n.nodeValue + "]]>" == was + ("<![CDATA[" + n.nodeValue + "]]>");
  }

  /** The element branch of ixmlPrintDomTreeRecursive. */
  method PrintElementNode(n: Node, buf: Membuf, ghost S: set<Node>, ghost g: Graph, ghost m: Contents, ghost r: Steps)
    requires Snapshot(S, g, m) && Walkable(g, m, r) && buf.Valid()
    requires n in S && n in g && n.nodeType.eELEMENT_NODE?
    modifies buf, buf.buf
    ensures buf.Valid() && (buf.buf == old(buf.buf) || fresh(buf.buf))
    ensures buf.Contents() == old(buf.Contents()) + PrintedFrom(g, m, r, n)
    decreases Ahead(r, n), 0
  {
    hide Snapshot, Walkable, PrintedFrom, HeadText, TailText, Escape, Membuf.Valid, Membuf.Contents, Ahead;
    StepFacts(S, g, m, r, n);
    PrintElement(g, m, r, n);
    ghost var was, kids, rest := buf.Contents(), PrintedFrom(g, m, r, n.firstChild), PrintedFrom(g, m, r, n.nextSibling);
    PrintInside(n, buf, S, g, m, r);
    PrintTail(n, buf, S, g, m);
    PrintDomTreeRecursive(n.nextSibling, buf, S, g, m, r);
    Regroup(was, HeadText(g, m, n), kids, TailText(g, m, n), rest);
  }

  /** The start tag of an element and what is inside. */
  method PrintInside(n: Node, buf: Membuf, ghost S: set<Node>, ghost g: Graph, ghost m: Contents, ghost r: Steps)
    requires Snapshot(S, g, m) && Walkable(g, m, r) && buf.Valid()
    requires n in S && n in g && n in m && InUse(n.firstChild, S) && (n.firstChild != null ==> n.firstChild in g)
    modifies buf, buf.buf
    ensures buf.Valid() && (buf.buf == old(buf.buf) || fresh(buf.buf))
    ensures buf.Contents() == old(buf.Contents()) + HeadText(g, m, n) + PrintedFrom(g, m, r, n.firstChild)
    decreases Ahead(r, n.firstChild), 2
  {
    hide Snapshot, Walkable, PrintedFrom, HeadText, Membuf.Valid, Membuf.Contents, Ahead;
    PrintHead(n, buf, S, g, m);
    PrintDomTreeRecursive(n.firstChild, buf, S, g, m, r);
  }

  lemma PrintedNothing(g: Graph, m: Contents, r: Steps)
    requires Walkable(g, m, r)
    ensures PrintedFrom(g, m, r, null) == ""
  {
    hide Walkable;
  }

  /** ixmlDomTreetoString: a node without its siblings. */
  method DomTreetoString(nodeptr: Node, buf: Membuf, ghost S: set<Node>, ghost g: Graph, ghost m: Contents, ghost r: Steps)
    requires Snapshot(S, g, m) && Walkable(g, m, r) && buf.Valid() && nodeptr in S
    modifies buf, buf.buf
    ensures buf.Valid() && nodeptr in g && nodeptr in m
    ensures buf.Contents() == old(buf.Contents()) + NodeText(g, m, r, nodeptr)
  {
    hide Snapshot, Walkable, WalkOk, Membuf.Valid, Membuf.Contents, NodeText, PrintedFrom, PrintOpenTag;
    StepFacts(S, g, m, r, nodeptr);
    NodeTextOf(g, m, r, nodeptr);
    if nodeptr.nodeType == eELEMENT_NODE {
      PrintElementAlone(nodeptr, buf, S, g, m, r);
    } else {
      PrintDomTreeRecursive(nodeptr, buf, S, g, m, r);
    }
  }

  /** The element branch of ixmlDomTreetoString. */
  method PrintElementAlone(n: Node, buf: Membuf, ghost S: set<Node>, ghost g: Graph, ghost m: Contents, ghost r: Steps)
    requires Snapshot(S, g, m) && Walkable(g, m, r) && buf.Valid()
    requires n in S && (n.firstChild != null ==> n.firstChild in S && n.firstChild in g)
    modifies buf, buf.buf
    ensures buf.Valid()
    ensures buf.Contents() == old(buf.Contents())
                              + (PrintOpenTag(n.nodeName, n.attributes) + ">" + PrintedFrom(g, m, r, n.firstChild) + "</" + n.nodeName + ">")
  {
    hide *;
    ghost var was := buf.Contents();
    PrintStart(n, buf);
    buf.AppendStr(">");
    PrintDomTreeRecursive(n.firstChild, buf, S, g, m, r);
    buf.AppendStr("</");
    buf.AppendStr(n.nodeName);
    buf.AppendStr(">");
    RegroupNode(was, PrintOpenTag(n.nodeName, n.attributes), PrintedFrom(g, m, r, n.firstChild), n.nodeName);
  }

  /** The text of one node: of a document its children, of any other node the node alone. */
  ghost function NodeText(g: Graph, m: Contents, r: Steps, n: Node): string
    requires Walkable(g, m, r) && n in g && n in m
  {
    WalkAt(g, m, r, n);
    if m[n].nodeType.eDOCUMENT_NODE? then PrintSiblings(Forest(g, m, r, g[n].first))
    else PrintNode(TreeOf(g, m, r, n))
  }

  lemma NodeTextOf(g: Graph, m: Contents, r: Steps, n: Node)
    requires Walkable(g, m, r) && n in g && n in m
    ensures g[n].first != null ==> g[n].first in g
    ensures NodeText(g, m, r, n) ==
            if m[n].nodeType.eELEMENT_NODE? then
              PrintOpenTag(m[n].name, m[n].attrs) + ">" + PrintedFrom(g, m, r, g[n].first) + "</" + m[n].name + ">"
            else PrintedFrom(g, m, r, n)
  {
    hide Walkable, PrintSiblings, PrintOpenTag, Forest, TreeOf;
    ForestUnfolds(g, m, r, n);
    if m[n].nodeType.eTEXT_NODE? || m[n].nodeType.eCDATA_SECTION_NODE? {
      LeafAlone(Forest(g, m, r, n));
    }
  }

  /** Printing stops after text or CDATA. */
  lemma LeafAlone(siblings: seq<Tree>)
    requires siblings != [] && !siblings[0].Element?
    ensures PrintSiblings(siblings) == PrintNode(siblings[0])
  {
  }

  lemma RegroupNode(was: string, open: string, kids: string, name: string)
    ensures was + open + ">" + kids + "</" + name + ">" == was + (open + ">" + kids + "</" + name + ">")
  {
  }

  /** ixmlDocumenttoString. */
  method DocumentToString(doc: Node, ghost S: set<Node>, ghost g: Graph, ghost m: Contents, ghost r: Steps) returns (text: string)
    requires Snapshot(S, g, m) && Walkable(g, m, r) && doc in S && doc.nodeType.eDOCUMENT_NODE?
    ensures doc.firstChild != null ==> doc.firstChild in g
    ensures text == PrintDocument(Forest(g, m, r, doc.firstChild))
  {
    hide Snapshot, Walkable, Forest, PrintSiblings, Membuf.Contents;
    StepFacts(S, g, m, r, doc);
    var buf := new Membuf();
    buf.AppendStr("<?xml version=\"1.0\"?>\r\n");
    DomTreetoString(doc, buf, S, g, m, r);
    text := buf.Contents();
    assert "" + XML_PROLOG == XML_PROLOG;
  }

  /** ixmlNodetoString. */
  method NodeToString(node: Node, ghost S: set<Node>, ghost g: Graph, ghost m: Contents, ghost r: Steps) returns (text: string)
    requires Snapshot(S, g, m) && Walkable(g, m, r) && node in S
    ensures node in g && node in m && text == NodeText(g, m, r, node)
  {
    hide Snapshot, Walkable, NodeText, Membuf.Contents;
    var buf := new Membuf();
    DomTreetoString(node, buf, S, g, m, r);
    text := buf.Contents();
    assert "" + NodeText(g, m, r, node) == NodeText(g, m, r, node);
  }
}
