/**
 Nodes as a walk over first children and next siblings sees them, whatever
 their other links are.  Printing and cloning go by these two links only.
 */
module DomWalk {
  import opened Dom
  import opened DomOps
  import opened DomSearch
  import opened DomView
  import opened XmlTree

  /** How many steps a walk from each node can take at most. */
  type Steps = map<Node, nat>

  ghost predicate LeadsTo(m: Contents, r: Steps, n: Node, x: Node?)
    requires n in r
  {
    x != null ==> x in m && x in r && r[x] < r[n] && !m[x].nodeType.eDOCUMENT_NODE?
  }

  ghost predicate WalkOk(g: Graph, m: Contents, r: Steps, n: Node)
    requires n in g && n in m && n in r
  {
    && m[n].nodeType in {eELEMENT_NODE, eTEXT_NODE, eCDATA_SECTION_NODE, eDOCUMENT_NODE}
    && LeadsTo(m, r, n, g[n].first) && LeadsTo(m, r, n, g[n].next)
  }

  /** Walks stay among the nodes and end, and meet no document after the first node. */
  ghost predicate Walkable(g: Graph, m: Contents, r: Steps) {
    && g.Keys == m.Keys == r.Keys
    && forall n {:trigger WalkOk(g, m, r, n)} | n in g :: WalkOk(g, m, r, n)
  }

  lemma WalkAt(g: Graph, m: Contents, r: Steps, n: Node)
    requires Walkable(g, m, r) && n in g
    ensures g.Keys == m.Keys == r.Keys && WalkOk(g, m, r, n)
    ensures g[n].first != null ==> g[n].first in g && r[g[n].first] < r[n] && !m[g[n].first].nodeType.eDOCUMENT_NODE?
    ensures g[n].next != null ==> g[n].next in g && r[g[n].next] < r[n] && !m[g[n].next].nodeType.eDOCUMENT_NODE?
  {
  }

  lemma WalkKeys(g: Graph, m: Contents, r: Steps)
    requires Walkable(g, m, r)
    ensures g.Keys == m.Keys == r.Keys
  {
  }

  /** The steps left to a walk from `n`. */
  ghost function Ahead(r: Steps, n: Node?): nat {
    if n != null && n in r then r[n] + 1 else 0
  }

  /** A node and the siblings after it, as trees. */
  ghost function Forest(g: Graph, m: Contents, r: Steps, n: Node?): seq<Tree>
    requires Walkable(g, m, r) && (n != null ==> n in g)
    decreases if n == null then 0 else r[n] + 1, 1
  {
    if n == null then []
    else
      WalkAt(g, m, r, n);
      [TreeOf(g, m, r, n)] + Forest(g, m, r, g[n].next)
  }

  ghost function TreeOf(g: Graph, m: Contents, r: Steps, n: Node): Tree
    requires Walkable(g, m, r) && n in g
    decreases r[n] + 1, 0
  {
    WalkAt(g, m, r, n);
    if m[n].nodeType.eTEXT_NODE? then TextNode(m[n].value)
    else if m[n].nodeType.eCDATA_SECTION_NODE? then CDataNode(m[n].value)
    else Element(m[n].name, m[n].attrs, Forest(g, m, r, g[n].first))
  }

  /** One step of a walk. */
  lemma ForestUnfolds(g: Graph, m: Contents, r: Steps, n: Node)
    requires Walkable(g, m, r) && n in g
    ensures g.Keys == m.Keys == r.Keys && WalkOk(g, m, r, n)
    ensures g[n].first != null ==> g[n].first in g && r[g[n].first] < r[n] && !m[g[n].first].nodeType.eDOCUMENT_NODE?
    ensures g[n].next != null ==> g[n].next in g && r[g[n].next] < r[n] && !m[g[n].next].nodeType.eDOCUMENT_NODE?
    ensures Forest(g, m, r, n) == [TreeOf(g, m, r, n)] + Forest(g, m, r, g[n].next)
    ensures TreeOf(g, m, r, n) ==
            if m[n].nodeType.eTEXT_NODE? then TextNode(m[n].value)
            else if m[n].nodeType.eCDATA_SECTION_NODE? then CDataNode(m[n].value)
            else Element(m[n].name, m[n].attrs, Forest(g, m, r, g[n].first))
  {
    hide Walkable, WalkOk;
    WalkAt(g, m, r, n);
  }

  lemma NoForest(g: Graph, m: Contents, r: Steps)
    requires Walkable(g, m, r)
    ensures Forest(g, m, r, null) == []
  {
    hide Walkable;
  }

  // ----- trees can be walked -----

  ghost function TreeSteps(g: Graph, k: Shape): (r: Steps)
    requires Agrees(g, k)
    ensures r.Keys == g.Keys
  {
    map n | n in g :: |Visited(g, k, n)|
  }

  /** The links of ordered trees can be walked. */
  lemma TreesAreWalkable(g: Graph, k: Shape, m: Contents)
    requires Agrees(g, k) && Markup(g, m)
    ensures Walkable(g, m, TreeSteps(g, k))
  {
    hide Agrees, UpOk, DownOk, Visited, Preorder;
    var r := TreeSteps(g, k);
    forall n | n in g ensures n in m && n in r && WalkOk(g, m, r, n) {
      VisitedUnfolds(g, k, n);
      NextAreChildren(g, k, m, n);
    }
  }

  /** And what the walk sees is the tree with its later siblings. */
  lemma {:induction false} ForestIsSiblings(g: Graph, k: Shape, m: Contents, r: Steps, n: Node?)
    requires Agrees(g, k) && Walkable(g, m, r) && (n != null ==> n in g)
    ensures g.Keys == m.Keys && Forest(g, m, r, n) == Siblings(g, k, m, n)
    decreases if n == null then 0 else r[n] + 1
  {
    hide Agrees, UpOk, DownOk, Walkable, WalkOk, Forest, TreeOf, Siblings, View, Ranked;
    WalkKeys(g, m, r);
    if n == null {
      NoForest(g, m, r);
      NoSiblings(g, k, m);
    } else {
      ForestUnfolds(g, m, r, n);
      ForestIsSiblings(g, k, m, r, g[n].first);
      ForestIsSiblings(g, k, m, r, g[n].next);
      SiblingsUnfold(g, k, m, n);
      ElementUnfolds(g, k, m, n);
    }
  }

  lemma TreeOfIsView(g: Graph, k: Shape, m: Contents, r: Steps, n: Node)
    requires Agrees(g, k) && Walkable(g, m, r) && n in g
    ensures n in k && m.Keys == k.Keys && Ranked(k) && TreeOf(g, m, r, n) == View(k, m, n)
  {
    hide Agrees, UpOk, DownOk, Walkable, WalkOk, Forest, TreeOf, Siblings, View, Ranked;
    WalkKeys(g, m, r);
    ForestIsSiblings(g, k, m, r, n);
    ForestUnfolds(g, m, r, n);
    SiblingsUnfold(g, k, m, n);
    assert Forest(g, m, r, n)[0] == TreeOf(g, m, r, n);
  }

  // ----- only two links matter -----

  ghost predicate SameWalks(g: Graph, g': Graph) {
    g.Keys == g'.Keys && forall n | n in g :: g'[n].first == g[n].first && g'[n].next == g[n].next
  }

  lemma {:induction false} SameForest(g: Graph, g': Graph, m: Contents, r: Steps, n: Node?)
    requires SameWalks(g, g') && Walkable(g, m, r) && (n != null ==> n in g)
    ensures Walkable(g', m, r) && Forest(g', m, r, n) == Forest(g, m, r, n)
    decreases if n == null then 0 else r[n] + 1
  {
    SameWalkable(g, g', m, r);
    hide Walkable, WalkOk, Forest, TreeOf;
    if n == null {
      NoForest(g, m, r);
      NoForest(g', m, r);
    } else {
      ForestUnfolds(g, m, r, n);
      ForestUnfolds(g', m, r, n);
      SameForest(g, g', m, r, g[n].first);
      SameForest(g, g', m, r, g[n].next);
    }
  }

  lemma SameWalkable(g: Graph, g': Graph, m: Contents, r: Steps)
    requires SameWalks(g, g') && Walkable(g, m, r)
    ensures Walkable(g', m, r)
  {
    forall n | n in g' ensures WalkOk(g', m, r, n) {
      WalkAt(g, m, r, n);
    }
  }
}
