/**
 The nodes of the DOM (IXML_Node in ixml.h), their links seen as a graph, and
 what it means for these links to form ordered trees.
 */
module Dom {
  import XmlTree

  datatype NodeType =
    | eELEMENT_NODE | eATTRIBUTE_NODE | eTEXT_NODE | eCDATA_SECTION_NODE | ePROCESSING_INSTRUCTION_NODE | eDOCUMENT_NODE
    /** any of the types the library never creates */
    | eOTHER_NODE

  class Node {
    var nodeName: string
    var nodeValue: string
    var nodeType: NodeType
    /** the attribute nodes, as a list of names and values */
    var attributes: seq<XmlTree.Attr>
    var parentNode: Node?
    var firstChild: Node?
    var prevSibling: Node?
    var nextSibling: Node?
    var ownerDocument: Node?

    /** A node without links, as ixmlNode_init leaves it once name, value and type are set. */
    constructor (nodeType: NodeType, nodeName: string, nodeValue: string, attributes: seq<XmlTree.Attr>)
      ensures this.nodeType == nodeType && this.nodeName == nodeName && this.nodeValue == nodeValue
      ensures this.attributes == attributes
      ensures parentNode == null && firstChild == null && prevSibling == null && nextSibling == null && ownerDocument == null
    {
      this.nodeType, this.nodeName, this.nodeValue, this.attributes := nodeType, nodeName, nodeValue, attributes;
      parentNode, firstChild, prevSibling, nextSibling, ownerDocument := null, null, null, null, null;
    }
  }

  // ----- the link graph -----

  datatype Links = Links(parent: Node?, first: Node?, prev: Node?, next: Node?)

  type Graph = map<Node, Links>

  ghost function LinksOf(n: Node): Links
    reads n
  {
    Links(n.parentNode, n.firstChild, n.prevSibling, n.nextSibling)
  }

  ghost function GraphOf(S: set<Node>): Graph
    reads S
  {
    map n | n in S :: LinksOf(n)
  }

  // ----- ordered trees -----

  /** The abstract place of a node: its children in order, its place among its siblings, a height above all descendants. */
  datatype Place = Place(kids: seq<Node>, pos: nat, rank: nat)

  type Shape = map<Node, Place>

  /** The siblings on both sides of place `i`. */
  function Before(s: seq<Node>, i: nat): Node?
    requires i <= |s|
  {
    if i == 0 then null else s[i - 1]
  }

  function After(s: seq<Node>, i: nat): Node?
    requires i < |s|
  {
    if i + 1 == |s| then null else s[i + 1]
  }

  /** The links of `n` to its parent and among its siblings. */
  ghost predicate UpOk(g: Graph, k: Shape, n: Node)
    requires n in g && g.Keys == k.Keys
  {
    var l := g[n];
    if l.parent == null then l.prev == null && l.next == null
    else
      && l.parent in g
      && k[n].rank < k[l.parent].rank
      && var kids, i := k[l.parent].kids, k[n].pos;
         && i < |kids| && kids[i] == n
         && l.prev == Before(kids, i)
         && l.next == After(kids, i)
  }

  /** The links between `n` and its children. */
  ghost predicate DownOk(g: Graph, k: Shape, n: Node)
    requires n in g && g.Keys == k.Keys
  {
    var kids := k[n].kids;
    && g[n].first == (if kids == [] then null else kids[0])
    && forall i | 0 <= i < |kids| :: kids[i] in g && g[kids[i]].parent == n && k[kids[i]].pos == i
  }

  /** The links are those of ordered trees with this shape: no cycles, and all four kinds of links agree. */
  ghost predicate Agrees(g: Graph, k: Shape) {
    && g.Keys == k.Keys
    && forall n {:trigger UpOk(g, k, n)} {:trigger DownOk(g, k, n)} | n in g :: UpOk(g, k, n) && DownOk(g, k, n)
  }

  lemma OkAt(g: Graph, k: Shape, n: Node)
    requires Agrees(g, k) && n in g
    ensures g.Keys == k.Keys && UpOk(g, k, n) && DownOk(g, k, n)
  {
    hide UpOk, DownOk;
  }

  lemma KeysAgree(g: Graph, k: Shape)
    requires Agrees(g, k)
    ensures g.Keys == k.Keys
  {
    hide UpOk, DownOk;
  }

  lemma AgreesIntro(g: Graph, k: Shape)
    requires g.Keys == k.Keys && forall n | n in g :: UpOk(g, k, n) && DownOk(g, k, n)
    ensures Agrees(g, k)
  {
    hide UpOk, DownOk;
  }

  /** One node of a locally linked graph. */
  ghost predicate LinkedAt(g: Graph, n: Node)
    requires n in g
  {
    var l := g[n];
    && l.parent != n
    && (l.next != null ==> l.next in g && l.next != n && g[l.next].prev == n && g[l.next].parent == l.parent)
    && (l.prev != null ==> l.prev in g && g[l.prev].next == n)
    && (l.first != null ==> l.first in g && g[l.first].parent == n && g[l.first].prev == null)
  }

  /** Agreement between neighbours that every forest has, whatever its shape. */
  lemma ForestIsLocallyLinked(g: Graph, k: Shape, n: Node)
    requires Agrees(g, k) && n in g
    ensures LinkedAt(g, n)
  {
    hide Agrees;
    OkAt(g, k, n);
    var l := g[n];
    if l.parent != null {
      OkAt(g, k, l.parent);
      if l.next != null {
        OkAt(g, k, l.next);
      }
      if l.prev != null {
        OkAt(g, k, l.prev);
      }
    }
    if l.first != null {
      OkAt(g, k, l.first);
    }
  }

  function Without<T>(s: seq<T>, i: nat): seq<T>
    requires i < |s|
  {
    s[..i] + s[i + 1..]
  }

  function Inserted<T>(s: seq<T>, i: nat, x: T): seq<T>
    requires i <= |s|
  {
    s[..i] + [x] + s[i..]
  }

  // ----- single assignments -----

  function SetNext(g: Graph, x: Node?, v: Node?): (u: Graph)
    ensures u.Keys == g.Keys
  {
    if x != null && x in g then g[x := g[x].(next := v)] else g
  }

  function SetPrev(g: Graph, x: Node?, v: Node?): (u: Graph)
    ensures u.Keys == g.Keys
  {
    if x != null && x in g then g[x := g[x].(prev := v)] else g
  }

  function SetFirst(g: Graph, x: Node?, v: Node?): (u: Graph)
    ensures u.Keys == g.Keys
  {
    if x != null && x in g then g[x := g[x].(first := v)] else g
  }

  // ----- removing a child -----

  /** The assignments of ixmlNode_removeChild. */
  function Unlinked(g: Graph, p: Node, c: Node): (u: Graph)
    requires p in g && c in g
    ensures u.Keys == g.Keys
  {
    var g1 := SetNext(g, g[c].prev, g[c].next);
    var g2 := if g1[p].first == c then SetFirst(g1, p, g1[c].next) else g1;
    var g3 := SetPrev(g2, g2[c].next, g2[c].prev);
    g3[c := Links(null, g3[c].first, null, null)]
  }

  function UnlinkedShape(g: Graph, k: Shape, p: Node, c: Node): Shape
    requires g.Keys == k.Keys && p in g && c in g && k[c].pos < |k[p].kids|
  {
    map n | n in k ::
      Place(if n == p then Without(k[p].kids, k[c].pos) else k[n].kids,
            if n != c && g[n].parent == p && k[n].pos > k[c].pos then k[n].pos - 1 else k[n].pos,
            k[n].rank)
  }

  /** A child, its parent and its siblings. */
  lemma ChildFacts(g: Graph, k: Shape, c: Node)
    requires Agrees(g, k) && c in g && g[c].parent != null
    ensures var p := g[c].parent;
            && p in g && p in k && c in k && p != c && k[c].pos < |k[p].kids| && k[p].kids[k[c].pos] == c
            && (g[c].prev != null ==> g[c].prev in g && g[c].prev != c)
            && (g[c].next != null ==> g[c].next in g && g[c].next != c)
            && (g[c].prev != null && g[c].next != null ==> g[c].prev != g[c].next)
  {
    hide Agrees;
    OkAt(g, k, c);
    OkAt(g, k, g[c].parent);
  }

  /** The links of a node after the removal, field by field. */
  function UnlinkedLinks(g: Graph, p: Node, c: Node, n: Node): Links
    requires n in g && c in g
  {
    var l := g[n];
    if n == c then Links(null, l.first, null, null)
    else Links(l.parent,
               if n == p && l.first == c then g[c].next else l.first,
               if n == g[c].next then g[c].prev else l.prev,
               if n == g[c].prev then g[c].next else l.next)
  }

  lemma UnlinkedAt(g: Graph, k: Shape, p: Node, c: Node, n: Node)
    requires Agrees(g, k) && p in g && c in g && n in g && g[c].parent == p
    ensures var u := Unlinked(g, p, c); u.Keys == g.Keys && u[n] == UnlinkedLinks(g, p, c, n)
  {
    hide Agrees;
    ChildFacts(g, k, c);
  }

  lemma UnlinkedAgrees(g: Graph, k: Shape, p: Node, c: Node)
    requires Agrees(g, k) && p in g && c in g && g[c].parent == p
    ensures g.Keys == k.Keys && k[c].pos < |k[p].kids| && Agrees(Unlinked(g, p, c), UnlinkedShape(g, k, p, c))
  {
    hide Agrees, Unlinked, UpOk, DownOk;
    OkAt(g, k, c);
    ChildFacts(g, k, c);
    var u, v := Unlinked(g, p, c), UnlinkedShape(g, k, p, c);
    UnlinkedAt(g, k, p, c, c);
    assert u.Keys == v.Keys;
    forall n | n in u ensures UpOk(u, v, n) && DownOk(u, v, n) {
      UnlinkedUp(g, k, p, c, n);
      UnlinkedDown(g, k, p, c, n);
    }
    AgreesIntro(u, v);
  }

  lemma UnlinkedUp(g: Graph, k: Shape, p: Node, c: Node, n: Node)
    requires Agrees(g, k) && p in g && c in g && n in g && g[c].parent == p && g.Keys == k.Keys && k[c].pos < |k[p].kids|
    requires Unlinked(g, p, c).Keys == g.Keys
    ensures UpOk(Unlinked(g, p, c), UnlinkedShape(g, k, p, c), n)
  {
    hide Agrees, Unlinked;
    UnlinkedAt(g, k, p, c, n);
    OkAt(g, k, n);
    if n == c {
    } else if g[n].parent == p {
      UnlinkedUpSibling(g, k, p, c, n);
    } else {
      SiblingsShareParent(g, k, c);
    }
  }

  lemma SiblingsShareParent(g: Graph, k: Shape, c: Node)
    requires Agrees(g, k) && c in g && g[c].parent != null
    ensures g[c].prev != null ==> g[c].prev in g && g[g[c].prev].parent == g[c].parent
    ensures g[c].next != null ==> g[c].next in g && g[g[c].next].parent == g[c].parent
  {
    hide Agrees;
    OkAt(g, k, c);
    OkAt(g, k, g[c].parent);
  }

  lemma WithoutNeighbours(s: seq<Node>, i: nat, j: nat)
    requires i < |s| && j < |s| && i != j
    ensures var t := Without(s, i); var j' := if j > i then j - 1 else j;
            && j' < |t| && t[j'] == s[j]
            && Before(t, j') == (if j == i + 1 then Before(s, i) else Before(s, j))
            && After(t, j') == (if j + 1 == i then After(s, i) else After(s, j))
  {
  }

  lemma UnlinkedUpSibling(g: Graph, k: Shape, p: Node, c: Node, n: Node)
    requires Agrees(g, k) && p in g && c in g && n in g && g[c].parent == p && g.Keys == k.Keys && k[c].pos < |k[p].kids|
    requires Unlinked(g, p, c).Keys == g.Keys && Unlinked(g, p, c)[n] == UnlinkedLinks(g, p, c, n)
    requires n != c && g[n].parent == p
    ensures UpOk(Unlinked(g, p, c), UnlinkedShape(g, k, p, c), n)
  {
    hide Agrees, Unlinked, DownOk, Without, Before, After, UpOk;
    UpFacts(g, k, n);
    UpFacts(g, k, c);
    WithoutNeighbours(k[p].kids, k[c].pos, k[n].pos);
    IsNextByPos(g, k, p, c, n);
    IsNextByPos(g, k, p, n, c);
    UpIntro(Unlinked(g, p, c), UnlinkedShape(g, k, p, c), n);
  }

  lemma UpFacts(g: Graph, k: Shape, n: Node)
    requires Agrees(g, k) && n in g && g[n].parent != null
    ensures var p := g[n].parent;
            && p in g && p in k && n in k && k[n].rank < k[p].rank && k[n].pos < |k[p].kids| && k[p].kids[k[n].pos] == n
            && g[n].prev == Before(k[p].kids, k[n].pos) && g[n].next == After(k[p].kids, k[n].pos)
  {
    hide Agrees, DownOk;
    OkAt(g, k, n);
  }

  lemma UpIntro(g: Graph, k: Shape, n: Node)
    requires g.Keys == k.Keys && n in g && g[n].parent != null && g[n].parent in g
    requires var p := g[n].parent;
             && k[n].rank < k[p].rank && k[n].pos < |k[p].kids| && k[p].kids[k[n].pos] == n
             && g[n].prev == Before(k[p].kids, k[n].pos) && g[n].next == After(k[p].kids, k[n].pos)
    ensures UpOk(g, k, n)
  {
  }

  /** Among the children of `p`, the next sibling is the one whose place is next; likewise for the previous one. */
  lemma IsNextByPos(g: Graph, k: Shape, p: Node, c: Node, n: Node)
    requires Agrees(g, k) && c in g && n in g && p in g && g.Keys == k.Keys && g[c].parent == p && g[n].parent == p
    ensures n == g[c].next <==> k[n].pos == k[c].pos + 1
    ensures n == g[c].prev <==> k[n].pos + 1 == k[c].pos
  {
    hide Agrees, UpOk, DownOk;
    UpFacts(g, k, n);
    UpFacts(g, k, c);
    if k[c].pos > 0 {
      ChildAt(g, k, p, k[c].pos - 1);
    }
    if k[c].pos + 1 < |k[p].kids| {
      ChildAt(g, k, p, k[c].pos + 1);
    }
  }

  lemma ChildAt(g: Graph, k: Shape, p: Node, i: nat)
    requires Agrees(g, k) && p in g && p in k && i < |k[p].kids|
    ensures var x := k[p].kids[i]; x in g && x in k && g[x].parent == p && k[x].pos == i
  {
    hide Agrees;
    OkAt(g, k, p);
  }

  lemma UnlinkedDown(g: Graph, k: Shape, p: Node, c: Node, n: Node)
    requires Agrees(g, k) && p in g && c in g && n in g && g[c].parent == p && g.Keys == k.Keys && k[c].pos < |k[p].kids|
    requires Unlinked(g, p, c).Keys == g.Keys
    ensures DownOk(Unlinked(g, p, c), UnlinkedShape(g, k, p, c), n)
  {
    hide Agrees, Unlinked, UpOk;
    UnlinkedAt(g, k, p, c, n);
    UpFacts(g, k, c);
    FirstFacts(g, k, n);
    if k[n].kids != [] {
      ChildAt(g, k, n, 0);
    }
    var kids := UnlinkedShape(g, k, p, c)[n].kids;
    forall i | 0 <= i < |kids|
      ensures kids[i] in g && Unlinked(g, p, c)[kids[i]].parent == n && UnlinkedShape(g, k, p, c)[kids[i]].pos == i
    {
      ChildAt(g, k, n, if n == p && i >= k[c].pos then i + 1 else i);
      UnlinkedAt(g, k, p, c, kids[i]);
    }
  }

  // ----- ancestors -----

  /** `t` lies strictly below `m`. */
  ghost predicate Below(g: Graph, k: Shape, m: Node, t: Node)
    requires Agrees(g, k) && m in g
    decreases k[m].rank
  {
    exists i | 0 <= i < |k[m].kids| :: IsOrBelow(g, k, m, i, t)
  }

  /** `t` is the `i`-th child of `m`, or lies below it. */
  ghost predicate IsOrBelow(g: Graph, k: Shape, m: Node, i: nat, t: Node)
    requires Agrees(g, k) && m in g && i < |k[m].kids|
    decreases k[m].rank, 0
  {
    ChildAt(g, k, m, i);
    UpFacts(g, k, k[m].kids[i]);
    k[m].kids[i] == t || Below(g, k, k[m].kids[i], t)
  }

  lemma {:induction false} BelowIsLower(g: Graph, k: Shape, m: Node, t: Node)
    requires Agrees(g, k) && m in g && Below(g, k, m, t)
    ensures t in g && t in k && k[t].rank < k[m].rank
    decreases k[m].rank
  {
    hide Agrees;
    OkAt(g, k, m);
    var i :| 0 <= i < |k[m].kids| && IsOrBelow(g, k, m, i, t);
    var x := k[m].kids[i];
    ChildAt(g, k, m, i);
    UpFacts(g, k, x);
    if x != t {
      BelowIsLower(g, k, x, t);
    }
  }

  lemma BelowWitness(g: Graph, k: Shape, m: Node, t: Node) returns (i: nat)
    requires Agrees(g, k) && m in g && Below(g, k, m, t)
    ensures m in k && i < |k[m].kids| && IsOrBelow(g, k, m, i, t)
  {
    hide Agrees;
    OkAt(g, k, m);
    i :| 0 <= i < |k[m].kids| && IsOrBelow(g, k, m, i, t);
  }

  /** What is below a node, or is that node, is below its parent. */
  lemma BelowParent(g: Graph, k: Shape, n: Node, t: Node)
    requires Agrees(g, k) && n in g && g[n].parent != null && (n == t || Below(g, k, n, t))
    ensures g[n].parent in g && Below(g, k, g[n].parent, t)
  {
    hide Agrees;
    UpFacts(g, k, n);
    assert IsOrBelow(g, k, g[n].parent, k[n].pos, t);
  }

  // ----- adding a child -----

  /** The links after `c` has become child number `i` of `p`, node by node. */
  function InsertedLinks(g: Graph, kids: seq<Node>, p: Node, c: Node, i: nat, n: Node): Links
    requires n in g && i <= |kids|
  {
    var l := g[n];
    if n == c then Links(p, l.first, Before(kids, i), if i == |kids| then null else kids[i])
    else Links(l.parent,
               if n == p && i == 0 then c else l.first,
               if i < |kids| && n == kids[i] then c else l.prev,
               if i > 0 && n == kids[i - 1] then c else l.next)
  }

  ghost function InsertedShape(g: Graph, k: Shape, p: Node, c: Node, i: nat): Shape
    requires Agrees(g, k) && p in g && c in g && i <= |k[p].kids|
  {
    map n | n in k ::
      Place(if n == p then Inserted(k[p].kids, i, c) else k[n].kids,
            if n == c then i else if g[n].parent == p && k[n].pos >= i then k[n].pos + 1 else k[n].pos,
            InsertedRank(g, k, p, c, n))
  }

  /** The new parent and all above it are raised over the new child. */
  ghost function InsertedRank(g: Graph, k: Shape, p: Node, c: Node, n: Node): nat
    requires Agrees(g, k) && n in g && c in g
  {
    k[n].rank + if n == p || Below(g, k, n, p) then k[c].rank + 1 else 0
  }

  lemma InsertedNeighbours(s: seq<Node>, i: nat, j: nat, x: Node)
    requires i <= |s| && j < |s|
    ensures var t := Inserted(s, i, x); var j' := if j >= i then j + 1 else j;
            && j' < |t| && t[j'] == s[j]
            && Before(t, j') == (if j == i then x else Before(s, j))
            && After(t, j') == (if j + 1 == i then x else After(s, j))
  {
  }

  lemma InsertedAtEnd(s: seq<Node>, i: nat, x: Node)
    requires i <= |s|
    ensures var t := Inserted(s, i, x);
            && i < |t| && t[i] == x && Before(t, i) == Before(s, i) && After(t, i) == (if i == |s| then null else s[i])
  {
  }

  /** `u` is the graph in which `c`, detached before, is child number `i` of `p`. */
  ghost predicate IsInsertion(g: Graph, k: Shape, p: Node, c: Node, i: nat, u: Graph) {
    && Agrees(g, k) && p in g && c in g && g.Keys == k.Keys && i <= |k[p].kids|
    && g[c].parent == null && c != p && !Below(g, k, c, p)
    && u.Keys == g.Keys
    && forall n | n in g :: u[n] == InsertedLinks(g, k[p].kids, p, c, i, n)
  }

  lemma InsertionFacts(g: Graph, k: Shape, p: Node, c: Node, i: nat, u: Graph, n: Node)
    requires IsInsertion(g, k, p, c, i, u) && n in g
    ensures Agrees(g, k) && p in g && c in g && g.Keys == k.Keys && i <= |k[p].kids|
    ensures g[c].parent == null && c != p && !Below(g, k, c, p)
    ensures u.Keys == g.Keys && u[n] == InsertedLinks(g, k[p].kids, p, c, i, n)
  {
    hide Agrees, Below, InsertedLinks;
  }

  lemma InsertedUp(g: Graph, k: Shape, p: Node, c: Node, i: nat, u: Graph, n: Node)
    requires IsInsertion(g, k, p, c, i, u) && n in g
    ensures u.Keys == InsertedShape(g, k, p, c, i).Keys && UpOk(u, InsertedShape(g, k, p, c, i), n)
  {
    hide IsInsertion, Agrees, DownOk, UpOk, Below;
    InsertionFacts(g, k, p, c, i, u, n);
    var v := InsertedShape(g, k, p, c, i);
    assert u.Keys == v.Keys;
    if n == c {
      InsertedAtEnd(k[p].kids, i, c);
      UpIntro(u, v, n);
    } else if g[n].parent == null {
      OrphanUp(g, k, p, c, i, u, n);
    } else if g[n].parent == p {
      InsertedUpSibling(g, k, p, c, i, u, n);
    } else {
      InsertedUpElsewhere(g, k, p, c, i, u, n);
    }
  }

  lemma OrphanUp(g: Graph, k: Shape, p: Node, c: Node, i: nat, u: Graph, n: Node)
    requires IsInsertion(g, k, p, c, i, u) && n in g && n != c && g[n].parent == null
    ensures u.Keys == InsertedShape(g, k, p, c, i).Keys && UpOk(u, InsertedShape(g, k, p, c, i), n)
  {
    hide IsInsertion, Agrees, DownOk, Below;
    InsertionFacts(g, k, p, c, i, u, n);
    OkAt(g, k, n);
    NotAChild(g, k, p, i, n);
    assert u.Keys == InsertedShape(g, k, p, c, i).Keys;
  }

  /** A node with another parent is not next to place `i` among the children of `p`. */
  lemma NotAChild(g: Graph, k: Shape, p: Node, i: nat, n: Node)
    requires Agrees(g, k) && p in g && p in k && n in g && g[n].parent != p && i <= |k[p].kids|
    ensures i < |k[p].kids| ==> n != k[p].kids[i]
    ensures i > 0 ==> n != k[p].kids[i - 1]
  {
    hide Agrees;
    if i < |k[p].kids| {
      ChildAt(g, k, p, i);
    }
    if i > 0 {
      ChildAt(g, k, p, i - 1);
    }
  }

  lemma InsertedUpSibling(g: Graph, k: Shape, p: Node, c: Node, i: nat, u: Graph, n: Node)
    requires IsInsertion(g, k, p, c, i, u) && n in g && n != c && g[n].parent == p
    ensures u.Keys == InsertedShape(g, k, p, c, i).Keys && UpOk(u, InsertedShape(g, k, p, c, i), n)
  {
    hide IsInsertion, Agrees, DownOk, UpOk, Below, Inserted, Before, After;
    InsertionFacts(g, k, p, c, i, u, n);
    var v := InsertedShape(g, k, p, c, i);
    assert u.Keys == v.Keys;
    UpFacts(g, k, n);
    InsertedNeighbours(k[p].kids, i, k[n].pos, c);
    if i < |k[p].kids| {
      ChildAt(g, k, p, i);
    }
    if i > 0 {
      ChildAt(g, k, p, i - 1);
    }
    UpIntro(u, v, n);
  }

  lemma InsertedUpElsewhere(g: Graph, k: Shape, p: Node, c: Node, i: nat, u: Graph, n: Node)
    requires IsInsertion(g, k, p, c, i, u) && n in g && n != c && g[n].parent != null && g[n].parent != p
    ensures u.Keys == InsertedShape(g, k, p, c, i).Keys && UpOk(u, InsertedShape(g, k, p, c, i), n)
  {
    hide IsInsertion, Agrees, DownOk, UpOk, Below, Inserted, Before, After;
    InsertionFacts(g, k, p, c, i, u, n);
    var v := InsertedShape(g, k, p, c, i);
    assert u.Keys == v.Keys;
    UpFacts(g, k, n);
    NotAChild(g, k, p, i, n);
    if n == p || Below(g, k, n, p) {
      BelowParent(g, k, n, p);
    }
    UpIntro(u, v, n);
  }

  lemma InsertedDown(g: Graph, k: Shape, p: Node, c: Node, i: nat, u: Graph, n: Node)
    requires IsInsertion(g, k, p, c, i, u) && n in g
    ensures u.Keys == InsertedShape(g, k, p, c, i).Keys && DownOk(u, InsertedShape(g, k, p, c, i), n)
  {
    hide IsInsertion, Agrees, UpOk, Below;
    InsertionFacts(g, k, p, c, i, u, n);
    var v := InsertedShape(g, k, p, c, i);
    assert u.Keys == v.Keys;
    OkAt(g, k, n);
    forall j | 0 <= j < |v[n].kids|
      ensures v[n].kids[j] in g && u[v[n].kids[j]].parent == n && v[v[n].kids[j]].pos == j
    {
      var x := v[n].kids[j];
      InsertedChild(g, k, p, c, i, u, n, j);
    }
  }

  lemma InsertedChild(g: Graph, k: Shape, p: Node, c: Node, i: nat, u: Graph, n: Node, j: nat)
    requires IsInsertion(g, k, p, c, i, u) && n in g
    requires j < |(if n == p then Inserted(k[p].kids, i, c) else k[n].kids)|
    ensures var x := (if n == p then Inserted(k[p].kids, i, c) else k[n].kids)[j];
            && x in g && x in u && u[x].parent == n
            && x in k && (if x == c then i else if g[x].parent == p && k[x].pos >= i then k[x].pos + 1 else k[x].pos) == j
  {
    hide IsInsertion, Agrees, UpOk, DownOk, Below;
    InsertionFacts(g, k, p, c, i, u, n);
    if n == p && j == i {
      InsertionFacts(g, k, p, c, i, u, c);
    } else {
      var j' := if n == p && j > i then j - 1 else j;
      ChildAt(g, k, n, j');
      InsertionFacts(g, k, p, c, i, u, k[n].kids[j']);
    }
  }

  lemma InsertionAgrees(g: Graph, k: Shape, p: Node, c: Node, i: nat, u: Graph)
    requires IsInsertion(g, k, p, c, i, u)
    ensures Agrees(g, k) && p in g && c in g && p in k && i <= |k[p].kids| && Agrees(u, InsertedShape(g, k, p, c, i))
  {
    hide IsInsertion, Agrees, UpOk, DownOk, Below, InsertedShape;
    InsertionKeys(g, k, p, c, i, u);
    forall n | n in u
      ensures u.Keys == InsertedShape(g, k, p, c, i).Keys
              && UpOk(u, InsertedShape(g, k, p, c, i), n) && DownOk(u, InsertedShape(g, k, p, c, i), n)
    {
      InsertedUp(g, k, p, c, i, u, n);
      InsertedDown(g, k, p, c, i, u, n);
    }
    AgreesIntro(u, InsertedShape(g, k, p, c, i));
  }

  lemma InsertionKeys(g: Graph, k: Shape, p: Node, c: Node, i: nat, u: Graph)
    requires IsInsertion(g, k, p, c, i, u)
    ensures Agrees(g, k) && p in g && c in g && g.Keys == k.Keys == u.Keys && i <= |k[p].kids|
    ensures u.Keys == InsertedShape(g, k, p, c, i).Keys
  {
    hide Agrees, Below, InsertedLinks, InsertedRank;
  }

  // ----- appendChild and insertBefore -----

  /** The assignments of ixmlNode_appendChild once `last` is the last child of `p`. */
  function Appended(g: Graph, p: Node, c: Node, last: Node?): (u: Graph)
    requires p in g && c in g
    ensures u.Keys == g.Keys
  {
    var g1 := g[c := g[c].(parent := p)];
    if g1[p].first == null then SetFirst(g1, p, c)
    else SetPrev(SetNext(g1, last, c), c, last)
  }

  /** The assignments of ixmlNode_insertBefore. */
  function LinkedBefore(g: Graph, p: Node, c: Node, r: Node): (u: Graph)
    requires p in g && c in g && r in g
    ensures u.Keys == g.Keys
  {
    var g1 := SetNext(g, c, r);
    var g2 := if g1[r].prev == null then g1 else SetPrev(SetNext(g1, g1[r].prev, c), c, g1[r].prev);
    var g3 := SetPrev(g2, r, c);
    var g4 := if g3[c].prev == null then SetFirst(g3, p, c) else g3;
    g4[c := g4[c].(parent := p)]
  }

  /** The child after which ixmlNode_appendChild links the new one. */
  ghost function LastKid(k: Shape, p: Node): Node?
    requires p in k
  {
    var kids := k[p].kids;
    if kids == [] then null else kids[|kids| - 1]
  }

  lemma AppendedIsInsertion(g: Graph, k: Shape, p: Node, c: Node)
    requires Agrees(g, k) && p in g && c in g && p in k
    requires g[c].parent == null && c != p && !Below(g, k, c, p)
    ensures IsInsertion(g, k, p, c, |k[p].kids|, Appended(g, p, c, LastKid(k, p)))
  {
    hide Agrees, Below;
    OkAt(g, k, p);
    OkAt(g, k, c);
    var kids := k[p].kids;
    if kids != [] {
      ChildAt(g, k, p, |kids| - 1);
    }
  }

  lemma LinkedBeforeIsInsertion(g: Graph, k: Shape, p: Node, c: Node, r: Node)
    requires Agrees(g, k) && p in g && c in g && r in g && g.Keys == k.Keys
    requires g[c].parent == null && c != p && !Below(g, k, c, p) && g[r].parent == p
    ensures IsInsertion(g, k, p, c, k[r].pos, LinkedBefore(g, p, c, r))
  {
    hide Agrees, Below, DownOk;
    UpFacts(g, k, r);
    FirstFacts(g, k, p);
    OkAt(g, k, c);
    if k[r].pos > 0 {
      ChildAt(g, k, p, k[r].pos - 1);
    }
    LinkedBeforePointwise(g, p, c, r, k[p].kids, k[r].pos);
  }

  lemma FirstFacts(g: Graph, k: Shape, p: Node)
    requires Agrees(g, k) && p in g && p in k
    ensures g[p].first == if k[p].kids == [] then null else k[p].kids[0]
  {
    hide Agrees;
    OkAt(g, k, p);
  }

  lemma LinkedBeforePointwise(g: Graph, p: Node, c: Node, r: Node, kids: seq<Node>, i: nat)
    requires p in g && c in g && r in g && c != p && c != r
    requires i < |kids| && kids[i] == r && (i > 0 ==> kids[i - 1] != r && kids[i - 1] != c && kids[i - 1] in g)
    requires g[r].prev == Before(kids, i) && g[c].prev == null && g[c].next == null
    ensures var u := LinkedBefore(g, p, c, r);
            u.Keys == g.Keys && forall n | n in g :: u[n] == InsertedLinks(g, kids, p, c, i, n)
  {
  }

  // ----- when the new child cannot be added -----

  /**
   A child taken from another parent stays in the list of that parent, and a
   node added to itself becomes its own parent: whatever the shape, the result
   is no forest.
   */
  lemma AppendedBreaks(g: Graph, k: Shape, p: Node, c: Node, k': Shape)
    requires Agrees(g, k) && p in g && c in g && p in k
    requires c == p || (g[c].parent != null && g[c].parent != p)
    ensures !Agrees(Appended(g, p, c, LastKid(k, p)), k')
  {
    hide Agrees, DownOk, UpOk;
    var u := Appended(g, p, c, LastKid(k, p));
    FirstFacts(g, k, p);
    if c != p {
      ChildFacts(g, k, c);
      LastKidFacts(g, k, p);
      FirstFacts(g, k, g[c].parent);
      UpFacts(g, k, c);
      if k[c].pos > 0 {
        ChildAt(g, k, g[c].parent, k[c].pos - 1);
        UpFacts(g, k, g[c].prev);
      }
    }
    if Agrees(u, k') {
      ForestIsLocallyLinked(u, k', c);
      if c != p {
        ForestIsLocallyLinked(u, k', if k[c].pos > 0 then g[c].prev else g[c].parent);
        ForestIsLocallyLinked(u, k', p);
      }
    }
  }

  lemma LastKidFacts(g: Graph, k: Shape, p: Node)
    requires Agrees(g, k) && p in g && p in k
    ensures var last := LastKid(k, p);
            last != null ==> last in g && g[last].parent == p
  {
    hide Agrees;
    if k[p].kids != [] {
      ChildAt(g, k, p, |k[p].kids| - 1);
    }
  }

  lemma LinkedBeforeBreaks(g: Graph, k: Shape, p: Node, c: Node, r: Node, k': Shape)
    requires Agrees(g, k) && p in g && c in g && r in g && p in k && g[r].parent == p
    requires c == p || (g[c].parent != null && g[c].parent != p)
    ensures !Agrees(LinkedBefore(g, p, c, r), k')
  {
    hide Agrees, DownOk, UpOk;
    var u := LinkedBefore(g, p, c, r);
    FirstFacts(g, k, p);
    UpFacts(g, k, r);
    if k[r].pos > 0 {
      ChildAt(g, k, p, k[r].pos - 1);
    }
    if c != p {
      ChildFacts(g, k, c);
      FirstFacts(g, k, g[c].parent);
      UpFacts(g, k, c);
      if k[c].pos > 0 {
        ChildAt(g, k, g[c].parent, k[c].pos - 1);
        UpFacts(g, k, g[c].prev);
      }
    }
    if Agrees(u, k') {
      ForestIsLocallyLinked(u, k', c);
      if c != p {
        ForestIsLocallyLinked(u, k', if k[c].pos > 0 then g[c].prev else g[c].parent);
        ForestIsLocallyLinked(u, k', p);
      }
    }
  }
}
