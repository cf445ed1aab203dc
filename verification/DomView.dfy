/**
 The tree below a node in memory as a value.
 */
module DomView {
  import opened Dom
  import opened DomOps
  import opened XmlTree

  /** What a node holds besides its links. */
  datatype Content = Content(nodeType: NodeType, name: string, value: string, attrs: seq<Attr>)

  type Contents = map<Node, Content>

  ghost function ContentOf(n: Node): Content
    reads n
  {
    Content(n.nodeType, n.nodeName, n.nodeValue, n.attributes)
  }

  ghost function ContentsOf(S: set<Node>): Contents
    reads S
  {
    map n | n in S :: ContentOf(n)
  }

  /** Every child is lower than its parent. */
  ghost predicate Ranked(k: Shape) {
    forall n, i | n in k && 0 <= i < |k[n].kids| :: k[n].kids[i] in k && k[k[n].kids[i]].rank < k[n].rank
  }

  lemma KidIsLower(k: Shape, n: Node, i: nat)
    requires Ranked(k) && n in k && i < |k[n].kids|
    ensures k[n].kids[i] in k && k[k[n].kids[i]].rank < k[n].rank
  {
  }

  lemma ForestIsRanked(g: Graph, k: Shape)
    requires Agrees(g, k)
    ensures g.Keys == k.Keys && Ranked(k)
  {
    hide Agrees, UpOk, DownOk;
    KeysAgree(g, k);
    forall n, i | n in k && 0 <= i < |k[n].kids| ensures k[n].kids[i] in k && k[k[n].kids[i]].rank < k[n].rank {
      ChildAt(g, k, n, i);
      UpFacts(g, k, k[n].kids[i]);
    }
  }

  ghost function View(k: Shape, m: Contents, n: Node): Tree
    requires Ranked(k) && n in k && m.Keys == k.Keys
    decreases k[n].rank, 0, 0
  {
    match m[n].nodeType
    case eTEXT_NODE => TextNode(m[n].value)
    case eCDATA_SECTION_NODE => CDataNode(m[n].value)
    case _ => Element(m[n].name, m[n].attrs, ViewFrom(k, m, n, 0))
  }

  /** The children of `p` from place `i` on. */
  ghost function ViewFrom(k: Shape, m: Contents, p: Node, i: nat): (trees: seq<Tree>)
    requires Ranked(k) && p in k && i <= |k[p].kids| && m.Keys == k.Keys
    ensures |trees| == |k[p].kids| - i
    decreases k[p].rank - 1, 1, |k[p].kids| - i
  {
    if i == |k[p].kids| then []
    else
      KidIsLower(k, p, i);
      [View(k, m, k[p].kids[i])] + ViewFrom(k, m, p, i + 1)
  }

  /** A node followed by its later siblings. */
  ghost function Siblings(g: Graph, k: Shape, m: Contents, n: Node?): seq<Tree>
    requires Agrees(g, k) && (n != null ==> n in g) && m.Keys == g.Keys
  {
    ForestIsRanked(g, k);
    if n == null then []
    else if g[n].parent == null then [View(k, m, n)]
    else UpFacts(g, k, n); ViewFrom(k, m, g[n].parent, k[n].pos)
  }

  lemma SiblingsUnfold(g: Graph, k: Shape, m: Contents, n: Node)
    requires Agrees(g, k) && n in g && m.Keys == g.Keys
    ensures n in k && m.Keys == k.Keys && Ranked(k) && (g[n].next != null ==> g[n].next in g)
    ensures Siblings(g, k, m, n) == [View(k, m, n)] + Siblings(g, k, m, g[n].next)
  {
    hide Agrees, UpOk, DownOk, View, Ranked;
    ForestIsRanked(g, k);
    if g[n].parent == null {
      NoParentNoSibling(g, k, n);
    } else {
      UpFacts(g, k, n);
      var p, i := g[n].parent, k[n].pos;
      if g[n].next != null {
        ChildAt(g, k, p, i + 1);
        assert Siblings(g, k, m, g[n].next) == ViewFrom(k, m, p, i + 1);
      } else {
        assert ViewFrom(k, m, p, i + 1) == [];
      }
    }
  }

  lemma ElementUnfolds(g: Graph, k: Shape, m: Contents, n: Node)
    requires Agrees(g, k) && n in g && m.Keys == g.Keys
    ensures n in k && m.Keys == k.Keys && Ranked(k) && (g[n].first != null ==> g[n].first in g)
    ensures View(k, m, n) ==
            if m[n].nodeType.eTEXT_NODE? then TextNode(m[n].value)
            else if m[n].nodeType.eCDATA_SECTION_NODE? then CDataNode(m[n].value)
            else Element(m[n].name, m[n].attrs, Siblings(g, k, m, g[n].first))
  {
    hide Agrees, UpOk, DownOk, Ranked;
    ForestIsRanked(g, k);
    FirstIsKid(g, k, n);
    assert g[n].first != null ==> Siblings(g, k, m, g[n].first) == ViewFrom(k, m, n, 0);
  }

  /** `g` and `m` are the links and the contents of the nodes in use. */
  ghost predicate Snapshot(S: set<Node>, g: Graph, m: Contents)
    reads S
  {
    g == GraphOf(S) && m == ContentsOf(S)
  }

  lemma SnapshotAt(S: set<Node>, g: Graph, m: Contents, n: Node)
    requires Snapshot(S, g, m) && n in S
    ensures g.Keys == m.Keys == S && g[n] == LinksOf(n) && m[n] == ContentOf(n)
  {
  }

  /** The nodes the library creates: a document is never a child, and there are no processing instructions. */
  ghost predicate Markup(g: Graph, m: Contents) {
    g.Keys == m.Keys &&
    forall n | n in g ::
      && m[n].nodeType in {eELEMENT_NODE, eTEXT_NODE, eCDATA_SECTION_NODE, eDOCUMENT_NODE}
      && (g[n].parent != null ==> !m[n].nodeType.eDOCUMENT_NODE?)
  }

  lemma NoSiblings(g: Graph, k: Shape, m: Contents)
    requires Agrees(g, k) && m.Keys == g.Keys
    ensures Siblings(g, k, m, null) == []
  {
    hide Agrees;
  }

  lemma ViewType(g: Graph, k: Shape, m: Contents, n: Node)
    requires Agrees(g, k) && Markup(g, m) && n in g && !m[n].nodeType.eDOCUMENT_NODE?
    ensures Ranked(k) && m.Keys == k.Keys
    ensures m[n].nodeType.eELEMENT_NODE? <==> View(k, m, n).Element?
    ensures m[n].nodeType.eTEXT_NODE? ==> View(k, m, n) == TextNode(m[n].value)
    ensures m[n].nodeType.eCDATA_SECTION_NODE? ==> View(k, m, n) == CDataNode(m[n].value)
    ensures View(k, m, n).TextNode? ==> m[n].nodeType.eTEXT_NODE?
  {
    hide Agrees, UpOk, DownOk, ViewFrom, Ranked;
    ForestIsRanked(g, k);
  }

  /** The first child and the next sibling of a node are children, so they are no documents. */
  lemma NextAreChildren(g: Graph, k: Shape, m: Contents, n: Node)
    requires Agrees(g, k) && Markup(g, m) && n in g
    ensures m.Keys == g.Keys
    ensures g[n].first != null ==> g[n].first in g && !m[g[n].first].nodeType.eDOCUMENT_NODE?
    ensures g[n].next != null ==> g[n].next in g && !m[g[n].next].nodeType.eDOCUMENT_NODE?
  {
    hide Agrees;
    FirstIsKid(g, k, n);
    if g[n].next != null {
      if g[n].parent == null {
        NoParentNoSibling(g, k, n);
      } else {
        SiblingsShareParent(g, k, n);
      }
    }
  }
}
