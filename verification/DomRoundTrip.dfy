/**
 From text to linked nodes and back: what the parser builds is what the printer
 walks.
 */
module DomRoundTrip {
  import opened Dom
  import opened DomBuild
  import opened DomClone
  import opened DomOps
  import opened DomPrint
  import opened DomView
  import opened DomWalk
  import XmlMachine
  import XmlParser
  import opened XmlRoundTrip
  import opened XmlTree

  /** The nodes of a finished document, seen by the printer. */
  lemma FinishedDocument(b: DomBuilder, kids: seq<Tree>)
    requires b.Holds([XmlMachine.Frame(XmlMachine.DOCUMENT_NAME, [], kids)])
    ensures var g, m := GraphOf(b.S), ContentsOf(b.S);
            && Snapshot(b.S, g, m) && Agrees(g, b.k)
            && b.document in b.S && b.document.nodeType == eDOCUMENT_NODE
            && InUse(b.document.firstChild, b.S)
            && Walkable(g, m, TreeSteps(g, b.k))
            && Forest(g, m, TreeSteps(g, b.k), b.document.firstChild) == kids
  {
    hide Agrees, PathOk, Views, View, Ranked, Siblings, Markup, Walkable, Forest;
    var g, m, path := GraphOf(b.S), ContentsOf(b.S), [XmlMachine.Frame(XmlMachine.DOCUMENT_NAME, [], kids)];
    var d := b.document;
    PathParts(g, b.k, m, b.nodes, path);
    FrameAt(g, b.k, m, b.nodes, path, 0);
    FirstIsKid(g, b.k, d);
    ViewsAreKids(b.k, m, d, 0);
    assert b.k[d].kids[0..] == b.k[d].kids;
    FirstChildren(g, b.k, m, d);
    TreesAreWalkable(g, b.k, m);
    ForestIsSiblings(g, b.k, m, TreeSteps(g, b.k), d.firstChild);
  }

  lemma FirstChildren(g: Graph, k: Shape, m: Contents, d: Node)
    requires Agrees(g, k) && d in g && m.Keys == g.Keys
    ensures d in k && Ranked(k) && m.Keys == k.Keys && (g[d].first != null ==> g[d].first in g)
    ensures Siblings(g, k, m, g[d].first) == ViewFrom(k, m, d, 0)
  {
    hide Agrees, Ranked, View;
    ForestIsRanked(g, k);
    FirstIsKid(g, k, d);
  }

  /** Parser_LoadDocument followed by ixmlDocumenttoString: the text of the tree that the state machine accepts. */
  method ParseAndPrint(text: string, config: XmlMachine.Config) returns (rc: XmlParser.ReturnCode, printed: string)
    ensures var outcome := XmlMachine.Parse(text, config);
            if outcome.Accepted? then rc == XmlParser.IXML_SUCCESS && printed == PrintDocument(outcome.kids)
            else rc != XmlParser.IXML_SUCCESS
  {
    hide *;
    var parser := new XmlParser.Parser(text, config);
    var doc;
    rc, doc := parser.ParseDocument();
    printed := "";
    if rc == XmlParser.IXML_SUCCESS {
      ghost var b, kids := parser.builder, XmlMachine.Parse(text, config).kids;
      FinishedDocument(b, kids);
      printed := DocumentToString(doc, b.S, GraphOf(b.S), ContentsOf(b.S), TreeSteps(GraphOf(b.S), b.k));
    }
  }

  /** A linked document that holds these children, seen by a walk. */
  ghost predicate IsDocument(doc: Node, N: set<Node>, r: Steps, kids: seq<Tree>)
    reads N
  {
    var g, m := GraphOf(N), ContentsOf(N);
    && Walkable(g, m, r) && doc in N && doc.nodeType == eDOCUMENT_NODE && InUse(doc.firstChild, N)
    && Forest(g, m, r, doc.firstChild) == kids
  }

  /**
   ixmlDocumenttoString followed by Parser_LoadDocument, from linked nodes to new linked
   nodes.  A printable document is read back as one that holds what the walk
   reached, and as the same document exactly when it round-trips.
   */
  method PrintAndParse(doc: Node, config: XmlMachine.Config, ghost S: set<Node>, ghost r: Steps, ghost kids: seq<Tree>)
    returns (rc: XmlParser.ReturnCode, copy: Node?, ghost N: set<Node>, ghost rN: Steps)
    requires IsDocument(doc, S, r, kids) && AllElements(kids) && Printable(kids)
    ensures rc == XmlParser.IXML_SUCCESS <==> |kids| <= 1
    ensures rc == XmlParser.IXML_SUCCESS ==> copy != null && fresh(N) && IsDocument(copy, N, rN, Reparsed(kids))
    ensures (rc == XmlParser.IXML_SUCCESS && IsDocument(copy, N, rN, kids)) <==> (|kids| <= 1 && RoundTrips(kids))
  {
    hide *;
    DocumentParts(doc, S, r, kids);
    var text := DocumentToString(doc, S, GraphOf(S), ContentsOf(S), r);
    ParseOfPrint(kids, config);
    ReparsedIsIdentity(kids);
    var parser := new XmlParser.Parser(text, config);
    rc, copy := parser.ParseDocument();
    N, rN := {}, map[];
    if rc == XmlParser.IXML_SUCCESS {
      ghost var b := parser.builder;
      FinishedDocument(b, Reparsed(kids));
      N, rN := b.S, TreeSteps(GraphOf(b.S), b.k);
      DocumentIntro(copy, N, rN, Reparsed(kids));
    }
  }

  lemma DocumentParts(doc: Node, S: set<Node>, r: Steps, kids: seq<Tree>)
    requires IsDocument(doc, S, r, kids)
    ensures Snapshot(S, GraphOf(S), ContentsOf(S)) && Walkable(GraphOf(S), ContentsOf(S), r) && doc in S
    ensures doc.nodeType.eDOCUMENT_NODE? && (doc.firstChild != null ==> doc.firstChild in GraphOf(S))
    ensures Forest(GraphOf(S), ContentsOf(S), r, doc.firstChild) == kids
  {
  }

  /** And nothing else. */
  lemma DocumentIntro(doc: Node, S: set<Node>, r: Steps, kids: seq<Tree>)
    requires Walkable(GraphOf(S), ContentsOf(S), r) && doc in S && doc.nodeType == eDOCUMENT_NODE && InUse(doc.firstChild, S)
    requires Forest(GraphOf(S), ContentsOf(S), r, doc.firstChild) == kids
    ensures forall other :: IsDocument(doc, S, r, other) <==> other == kids
  {
  }
}
