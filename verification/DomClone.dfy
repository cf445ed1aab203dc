/**
 The clone functions of node.c, which build new nodes, and what they build: a
 list of siblings without a parent until an element takes it as its children.
 */
module DomClone {
  import opened Dom
  import opened DomOps
  import opened DomPrint
  import DomSearch
  import opened DomView
  import opened DomWalk
  import opened XmlTree

  function FirstOf(list: seq<Node>): Node? {
    if list == [] then null else list[0]
  }

  /** Ordered trees side by side: `list` are their roots, linked to each other and to no parent. */
  ghost predicate Loose(g: Graph, k: Shape, list: seq<Node>) {
    && g.Keys == k.Keys
    && (forall i | 0 <= i < |list| :: list[i] in g && RootOk(g, k, list, i))
    && (forall n | n in g :: DownOk(g, k, n) && (n in list || (g[n].parent != null && UpOk(g, k, n))))
  }

  ghost predicate RootOk(g: Graph, k: Shape, list: seq<Node>, i: nat)
    requires i < |list| && list[i] in g && g.Keys == k.Keys
  {
    k[list[i]].pos == i && g[list[i]] == Links(null, g[list[i]].first, Before(list, i), After(list, i))
  }

  lemma RootAt(g: Graph, k: Shape, list: seq<Node>, i: nat)
    requires Loose(g, k, list) && i < |list|
    ensures list[i] in g && list[i] in k && k[list[i]].pos == i
    ensures g[list[i]] == Links(null, g[list[i]].first, Before(list, i), After(list, i))
  {
    hide UpOk, DownOk;
  }

  lemma InnerAt(g: Graph, k: Shape, list: seq<Node>, n: Node)
    requires Loose(g, k, list) && n in g
    ensures g.Keys == k.Keys && DownOk(g, k, n)
    ensures n !in list ==> g[n].parent != null && UpOk(g, k, n)
    ensures n in list ==> n in k && k[n].pos < |list| && list[k[n].pos] == n
  {
    hide UpOk, DownOk;
    if n in list {
      var i :| 0 <= i < |list| && list[i] == n;
      RootAt(g, k, list, i);
    }
  }

  /** The children of a node of a loose list are no roots. */
  lemma KidIsNoRoot(g: Graph, k: Shape, list: seq<Node>, n: Node, i: nat)
    requires Loose(g, k, list) && n in g && n in k && i < |k[n].kids|
    ensures var x := k[n].kids[i]; x in g && x in k && g[x].parent == n && x !in list && k[x].rank < k[n].rank && k[x].pos == i
  {
    hide Loose;
    InnerAt(g, k, list, n);
    var x := k[n].kids[i];
    InnerAt(g, k, list, x);
    if x in list {
      RootAt(g, k, list, k[x].pos);
    }
  }

  lemma LooseIsRanked(g: Graph, k: Shape, list: seq<Node>)
    requires Loose(g, k, list)
    ensures g.Keys == k.Keys && Ranked(k) && forall i | 0 <= i < |list| :: list[i] in k
  {
    hide Loose;
    LooseKeys(g, k, list);
    forall n, i | n in k && 0 <= i < |k[n].kids| ensures k[n].kids[i] in k && k[k[n].kids[i]].rank < k[n].rank {
      KidIsNoRoot(g, k, list, n, i);
    }
    forall i | 0 <= i < |list| ensures list[i] in k {
      RootAt(g, k, list, i);
    }
  }

  lemma LooseKeys(g: Graph, k: Shape, list: seq<Node>)
    requires Loose(g, k, list)
    ensures g.Keys == k.Keys
  {
    hide UpOk, DownOk;
  }

  /** The trees with these roots. */
  ghost function Views(k: Shape, m: Contents, list: seq<Node>): (trees: seq<Tree>)
    requires Ranked(k) && m.Keys == k.Keys && forall i | 0 <= i < |list| :: list[i] in k
    ensures |trees| == |list|
  {
    if list == [] then [] else [View(k, m, list[0])] + Views(k, m, list[1..])
  }

  lemma {:induction false} ViewsAreKids(k: Shape, m: Contents, p: Node, i: nat)
    requires Ranked(k) && m.Keys == k.Keys && p in k && i <= |k[p].kids|
    ensures forall j | 0 <= j < |k[p].kids| :: k[p].kids[j] in k
    ensures ViewFrom(k, m, p, i) == Views(k, m, k[p].kids[i..])
    decreases |k[p].kids| - i
  {
    hide View;
    if i < |k[p].kids| {
      ViewsAreKids(k, m, p, i + 1);
      assert k[p].kids[i..][1..] == k[p].kids[i + 1..];
    }
  }

  /** Shape and contents may grow, and heights and places of roots change, without any change below a node. */
  ghost predicate Extends(k: Shape, m: Contents, k': Shape, m': Contents) {
    && Ranked(k) && Ranked(k') && m.Keys == k.Keys && m'.Keys == k'.Keys
    && forall n | n in k :: n in k' && k'[n].kids == k[n].kids && m'[n] == m[n]
  }

  lemma ExtendsAt(k: Shape, m: Contents, k': Shape, m': Contents, n: Node)
    requires Extends(k, m, k', m') && n in k
    ensures n in k' && k'[n].kids == k[n].kids && n in m && n in m' && m'[n] == m[n]
    ensures Ranked(k) && Ranked(k') && m.Keys == k.Keys && m'.Keys == k'.Keys
  {
    hide Ranked;
  }

  lemma {:induction false} ViewExtends(k: Shape, m: Contents, k': Shape, m': Contents, n: Node)
    requires Extends(k, m, k', m') && n in k
    ensures n in k' && View(k', m', n) == View(k, m, n)
    decreases k[n].rank, 0, 0
  {
    hide Extends, Ranked;
    ExtendsAt(k, m, k', m', n);
    ViewFromExtends(k, m, k', m', n, 0);
  }

  lemma {:induction false} ViewFromExtends(k: Shape, m: Contents, k': Shape, m': Contents, p: Node, i: nat)
    requires Extends(k, m, k', m') && p in k && p in k' && i <= |k[p].kids| == |k'[p].kids|
    ensures ViewFrom(k', m', p, i) == ViewFrom(k, m, p, i)
    decreases k[p].rank - 1, 1, |k[p].kids| - i
  {
    hide Extends, Ranked, View;
    ExtendsAt(k, m, k', m', p);
    if i < |k[p].kids| {
      KidIsLower(k, p, i);
      ViewExtends(k, m, k', m', k[p].kids[i]);
      ViewFromExtends(k, m, k', m', p, i + 1);
    }
  }

  lemma {:induction false} ViewsExtend(k: Shape, m: Contents, k': Shape, m': Contents, list: seq<Node>)
    requires Extends(k, m, k', m') && forall i | 0 <= i < |list| :: list[i] in k
    ensures forall i | 0 <= i < |list| :: list[i] in k'
    ensures Views(k', m', list) == Views(k, m, list)
  {
    hide Ranked, View;
    if list != [] {
      ViewExtends(k, m, k', m', list[0]);
      ViewsExtend(k, m, k', m', list[1..]);
    }
  }

  // ----- taking a list as children -----

  ghost function Adopted(g: Graph, list: seq<Node>, e: Node): (u: Graph)
    ensures u.Keys == g.Keys
  {
    map n | n in g :: if n in list then g[n].(parent := e) else g[n]
  }

  /** A height above all nodes of `list`. */
  ghost function Above(k: Shape, list: seq<Node>): nat {
    if list == [] then 0
    else var rest := Above(k, list[1..]);
      if list[0] in k && k[list[0]].rank >= rest then k[list[0]].rank + 1 else rest
  }

  lemma {:induction false} AboveAll(k: Shape, list: seq<Node>, i: nat)
    requires i < |list| && list[i] in k
    ensures k[list[i]].rank < Above(k, list)
  {
    if i > 0 {
      AboveAll(k, list[1..], i - 1);
    }
  }

  ghost function ElementGraph(g: Graph, list: seq<Node>, e: Node): Graph {
    Adopted(g, list, e)[e := Links(null, FirstOf(list), null, null)]
  }

  ghost function ElementShape(k: Shape, list: seq<Node>, e: Node): Shape {
    k[e := Place(list, 0, Above(k, list))]
  }

  /** An element over a loose list is an ordered tree. */
  lemma ElementIsTree(g: Graph, k: Shape, list: seq<Node>, e: Node)
    requires Loose(g, k, list) && e !in g
    ensures Agrees(ElementGraph(g, list, e), ElementShape(k, list, e))
  {
    hide Loose, UpOk, DownOk;
    var g', k' := ElementGraph(g, list, e), ElementShape(k, list, e);
    LooseKeys(g, k, list);
    assert g'.Keys == k'.Keys;
    forall n | n in g' ensures UpOk(g', k', n) && DownOk(g', k', n) {
      ElementUp(g, k, list, e, n);
      ElementDown(g, k, list, e, n);
    }
    AgreesIntro(g', k');
  }

  lemma ElementUp(g: Graph, k: Shape, list: seq<Node>, e: Node, n: Node)
    requires Loose(g, k, list) && e !in g && (n in g || n == e)
    ensures var g', k' := ElementGraph(g, list, e), ElementShape(k, list, e);
            g'.Keys == k'.Keys && n in g' && UpOk(g', k', n)
  {
    hide Loose, DownOk;
    LooseKeys(g, k, list);
    assert ElementGraph(g, list, e).Keys == ElementShape(k, list, e).Keys;
    if n != e {
      InnerAt(g, k, list, n);
      if n in list {
        RootAt(g, k, list, k[n].pos);
        AboveAll(k, list, k[n].pos);
      }
    }
  }

  lemma ElementDown(g: Graph, k: Shape, list: seq<Node>, e: Node, n: Node)
    requires Loose(g, k, list) && e !in g && (n in g || n == e)
    ensures var g', k' := ElementGraph(g, list, e), ElementShape(k, list, e);
            g'.Keys == k'.Keys && n in g' && DownOk(g', k', n)
  {
    hide Loose, UpOk;
    LooseKeys(g, k, list);
    var g', k' := ElementGraph(g, list, e), ElementShape(k, list, e);
    assert g'.Keys == k'.Keys;
    if n == e {
      forall i | 0 <= i < |list| ensures list[i] in g' && g'[list[i]].parent == e && k'[list[i]].pos == i {
        RootAt(g, k, list, i);
      }
    } else {
      InnerAt(g, k, list, n);
      forall i | 0 <= i < |k[n].kids|
        ensures var x := k[n].kids[i]; x in g' && g'[x].parent == n && k'[x].pos == i
      {
        KidIsNoRoot(g, k, list, n, i);
      }
    }
  }

  /** A tree whose root has no parent is a loose list of one. */
  lemma TreeIsLoose(g: Graph, k: Shape, e: Node)
    requires Agrees(g, k) && e in g && g[e].parent == null && e in k && k[e].pos == 0
    requires forall n | n in g && n != e :: g[n].parent != null
    ensures Loose(g, k, [e])
  {
    hide UpOk, DownOk;
    NoParentNoSibling(g, k, e);
  }

  // ----- putting an element before a list -----

  ghost function JoinedGraph(ga: Graph, gb: Graph, e: Node, list: seq<Node>): Graph {
    var g := SetNext(ga, e, FirstOf(list)) + gb;
    if list == [] then g else SetPrev(g, list[0], e)
  }

  ghost function JoinedShape(ka: Shape, kb: Shape, list: seq<Node>): Shape {
    ka + map n | n in kb :: if n in list then kb[n].(pos := kb[n].pos + 1) else kb[n]
  }

  ghost predicate Joinable(ga: Graph, ka: Shape, e: Node, gb: Graph, kb: Shape, list: seq<Node>) {
    && Loose(ga, ka, [e]) && Loose(gb, kb, list) && ga.Keys !! gb.Keys && e in ga
  }

  /** The links of a node after joining. */
  lemma JoinedAt(ga: Graph, ka: Shape, e: Node, gb: Graph, kb: Shape, list: seq<Node>, n: Node)
    requires Joinable(ga, ka, e, gb, kb, list) && (n in ga || n in gb)
    ensures var g, k := JoinedGraph(ga, gb, e, list), JoinedShape(ka, kb, list);
            && g.Keys == k.Keys && n in g && n in k
            && (n in ga ==> n !in gb && n in ka && k[n] == ka[n] && g[n] == if n == e then ga[n].(next := FirstOf(list)) else ga[n])
            && (n in gb ==> n in kb && k[n] == (if n in list then kb[n].(pos := kb[n].pos + 1) else kb[n])
                            && g[n] == (if list != [] && n == list[0] then gb[n].(prev := e) else gb[n]))
  {
    hide Loose;
    LooseKeys(ga, ka, [e]);
    LooseKeys(gb, kb, list);
    if list != [] {
      RootAt(gb, kb, list, 0);
    }
    assert JoinedGraph(ga, gb, e, list).Keys == ga.Keys + gb.Keys;
    assert JoinedShape(ka, kb, list).Keys == ka.Keys + kb.Keys;
  }

  lemma JoinedIsLoose(ga: Graph, ka: Shape, e: Node, gb: Graph, kb: Shape, list: seq<Node>)
    requires Joinable(ga, ka, e, gb, kb, list)
    ensures Loose(JoinedGraph(ga, gb, e, list), JoinedShape(ka, kb, list), [e] + list)
  {
    hide Loose, UpOk, DownOk, JoinedGraph, JoinedShape, RootOk, Joinable;
    var g, k, all := JoinedGraph(ga, gb, e, list), JoinedShape(ka, kb, list), [e] + list;
    EIsThere(ga, ka, e, gb, kb, list);
    JoinedAt(ga, ka, e, gb, kb, list, e);
    forall i | 0 <= i < |all| ensures all[i] in g && RootOk(g, k, all, i) {
      JoinedRoot(ga, ka, e, gb, kb, list, i);
    }
    forall n | n in g ensures DownOk(g, k, n) && (n in all || (g[n].parent != null && UpOk(g, k, n))) {
      JoinedKeys(ga, ka, e, gb, kb, list, n);
      JoinedInner(ga, ka, e, gb, kb, list, n);
    }
    LooseIntro(g, k, all);
  }

  lemma EIsThere(ga: Graph, ka: Shape, e: Node, gb: Graph, kb: Shape, list: seq<Node>)
    requires Joinable(ga, ka, e, gb, kb, list)
    ensures e in ga
  {
    hide Loose;
  }

  lemma JoinedKeys(ga: Graph, ka: Shape, e: Node, gb: Graph, kb: Shape, list: seq<Node>, n: Node)
    requires Joinable(ga, ka, e, gb, kb, list) && n in JoinedGraph(ga, gb, e, list)
    ensures n in ga || n in gb
  {
    hide Loose;
    if list != [] {
      RootAt(gb, kb, list, 0);
    }
  }

  lemma LooseIntro(g: Graph, k: Shape, list: seq<Node>)
    requires g.Keys == k.Keys
    requires forall i | 0 <= i < |list| :: list[i] in g && RootOk(g, k, list, i)
    requires forall n | n in g :: DownOk(g, k, n) && (n in list || (g[n].parent != null && UpOk(g, k, n)))
    ensures Loose(g, k, list)
  {
    hide UpOk, DownOk, RootOk;
  }

  lemma JoinedRoot(ga: Graph, ka: Shape, e: Node, gb: Graph, kb: Shape, list: seq<Node>, i: nat)
    requires Joinable(ga, ka, e, gb, kb, list) && i < 1 + |list|
    ensures var g, k, all := JoinedGraph(ga, gb, e, list), JoinedShape(ka, kb, list), [e] + list;
            g.Keys == k.Keys && all[i] in g && RootOk(g, k, all, i)
  {
    hide Loose, UpOk, DownOk, JoinedGraph, JoinedShape;
    var all := [e] + list;
    if i == 0 {
      JoinedAt(ga, ka, e, gb, kb, list, e);
      RootAt(ga, ka, [e], 0);
    } else {
      RootAt(gb, kb, list, i - 1);
      JoinedAt(ga, ka, e, gb, kb, list, list[i - 1]);
      if i > 1 {
        RootAt(gb, kb, list, 0);
      }
    }
  }

  lemma JoinedInner(ga: Graph, ka: Shape, e: Node, gb: Graph, kb: Shape, list: seq<Node>, n: Node)
    requires Joinable(ga, ka, e, gb, kb, list) && (n in ga || n in gb)
    ensures var g, k, all := JoinedGraph(ga, gb, e, list), JoinedShape(ka, kb, list), [e] + list;
            g.Keys == k.Keys && n in g && DownOk(g, k, n) && (n in all || (g[n].parent != null && UpOk(g, k, n)))
  {
    hide Loose, JoinedGraph, JoinedShape;
    JoinedAt(ga, ka, e, gb, kb, list, n);
    if n in ga {
      InnerAt(ga, ka, [e], n);
      InnerStays(ga, ka, e, gb, kb, list, n, ga, ka, [e]);
    } else {
      InnerAt(gb, kb, list, n);
      InnerStays(ga, ka, e, gb, kb, list, n, gb, kb, list);
    }
  }

  /** A node keeps its place among the nodes of its part. */
  lemma InnerStays(ga: Graph, ka: Shape, e: Node, gb: Graph, kb: Shape, list: seq<Node>, n: Node,
                   part: Graph, shape: Shape, roots: seq<Node>)
    requires Joinable(ga, ka, e, gb, kb, list)
    requires (part == ga && shape == ka && roots == [e]) || (part == gb && shape == kb && roots == list)
    requires n in part && Loose(part, shape, roots)
    ensures var g, k, all := JoinedGraph(ga, gb, e, list), JoinedShape(ka, kb, list), [e] + list;
            g.Keys == k.Keys && n in g && DownOk(g, k, n) && (n in all || (g[n].parent != null && UpOk(g, k, n)))
  {
    hide Loose, JoinedGraph, JoinedShape;
    var g, k, all := JoinedGraph(ga, gb, e, list), JoinedShape(ka, kb, list), [e] + list;
    JoinedAt(ga, ka, e, gb, kb, list, n);
    InnerAt(part, shape, roots, n);
    assert n in roots ==> n in all;
    forall i | 0 <= i < |k[n].kids| ensures var x := k[n].kids[i]; x in g && g[x].parent == n && k[x].pos == i {
      KidIsNoRoot(part, shape, roots, n, i);
      JoinedAt(ga, ka, e, gb, kb, list, k[n].kids[i]);
    }
    if n !in roots {
      var p := part[n].parent;
      JoinedAt(ga, ka, e, gb, kb, list, p);
      NotRootZero(part, shape, roots, n);
    }
  }

  lemma NotRootZero(g: Graph, k: Shape, list: seq<Node>, n: Node)
    requires Loose(g, k, list) && n in g && n !in list
    ensures list != [] ==> n != list[0]
  {
  }

  // ----- the trees that are built -----

  /** The nodes `N` form the loose list `list`, whose trees are `trees`. */
  ghost predicate Holds(N: set<Node>, k: Shape, list: seq<Node>, trees: seq<Tree>)
    reads N
  {
    Loose(GraphOf(N), k, list) && (LooseIsRanked(GraphOf(N), k, list); Views(k, ContentsOf(N), list) == trees)
  }

  lemma ElementView(g: Graph, k: Shape, m: Contents, list: seq<Node>, e: Node, c: Content)
    requires Loose(g, k, list) && g.Keys == k.Keys == m.Keys && e !in g && !c.nodeType.eTEXT_NODE? && !c.nodeType.eCDATA_SECTION_NODE?
    requires Ranked(k) && forall i | 0 <= i < |list| :: list[i] in k
    ensures var k', m' := ElementShape(k, list, e), m[e := c];
            Ranked(k') && e in k' && m'.Keys == k'.Keys && View(k', m', e) == Element(c.name, c.attrs, Views(k, m, list))
  {
    hide Loose, Views, ViewFrom, Ranked, Agrees, UpOk, DownOk, ElementGraph, Extends;
    var k', m' := ElementShape(k, list, e), m[e := c];
    ElementIsTree(g, k, list, e);
    ForestIsRanked(ElementGraph(g, list, e), k');
    ElementExtends(k, m, list, e, c);
    ViewsExtend(k, m, k', m', list);
    ViewsAreKids(k', m', e, 0);
    assert k'[e].kids[0..] == list;
  }

  lemma ElementExtends(k: Shape, m: Contents, list: seq<Node>, e: Node, c: Content)
    requires k.Keys == m.Keys && e !in k && Ranked(k) && Ranked(ElementShape(k, list, e))
    ensures Extends(k, m, ElementShape(k, list, e), m[e := c])
  {
    hide Ranked, Above;
  }

  lemma JoinedViews(ga: Graph, ka: Shape, ma: Contents, e: Node, gb: Graph, kb: Shape, mb: Contents, list: seq<Node>)
    requires Joinable(ga, ka, e, gb, kb, list) && ka.Keys == ma.Keys && kb.Keys == mb.Keys
    requires Ranked(ka) && Ranked(kb) && e in ka && forall i | 0 <= i < |list| :: list[i] in kb
    ensures var k, m, all := JoinedShape(ka, kb, list), ma + mb, [e] + list;
            && Ranked(k) && m.Keys == k.Keys && (forall i | 0 <= i < |all| :: all[i] in k)
            && Views(k, m, all) == [View(ka, ma, e)] + Views(kb, mb, list)
  {
    hide Loose, Ranked, View, Joinable, JoinedGraph, UpOk, DownOk;
    var k, m, all := JoinedShape(ka, kb, list), ma + mb, [e] + list;
    JoinedIsLoose(ga, ka, e, gb, kb, list);
    LooseIsRanked(JoinedGraph(ga, gb, e, list), k, all);
    JoinableApart(ga, ka, e, gb, kb, list);
    assert Extends(ka, ma, k, m);
    assert Extends(kb, mb, k, m);
    ViewExtends(ka, ma, k, m, e);
    ViewsExtend(kb, mb, k, m, list);
    assert all[1..] == list;
  }

  lemma JoinableApart(ga: Graph, ka: Shape, e: Node, gb: Graph, kb: Shape, list: seq<Node>)
    requires Joinable(ga, ka, e, gb, kb, list)
    ensures forall n | n in ka :: n !in kb
  {
    hide Loose;
    LooseKeys(ga, ka, [e]);
    LooseKeys(gb, kb, list);
  }

  // ----- building them -----

  /** One assignment to a parent link, seen on links and contents. */
  method SetParent(x: Node, e: Node, ghost N: set<Node>)
    requires x in N
    modifies x`parentNode
    ensures x in old(GraphOf(N)) && GraphOf(N) == old(GraphOf(N))[x := old(GraphOf(N))[x].(parent := e)]
    ensures ContentsOf(N) == old(ContentsOf(N))
  {
    x.parentNode := e;
  }

  /** The loop of cloneNodeTree: `e` becomes the parent of the siblings from `list[i]` on. */
  method SetParents(child: Node?, e: Node, ghost list: seq<Node>, ghost i: nat, ghost N: set<Node>, ghost k: Shape, ghost g: Graph)
    requires Loose(g, k, list) && g.Keys == N && i <= |list| && child == (if i < |list| then list[i] else null)
    requires GraphOf(N) == Adopted(g, list[..i], e)
    modifies N`parentNode
    ensures GraphOf(N) == Adopted(g, list, e) && ContentsOf(N) == old(ContentsOf(N))
  {
    hide Loose, Adopted, GraphOf, ContentsOf;
    var childNode := child;
    ghost var j := i;
    while childNode != null
      invariant i <= j <= |list| && childNode == (if j < |list| then list[j] else null)
      invariant GraphOf(N) == Adopted(g, list[..j], e) && ContentsOf(N) == old(ContentsOf(N))
      decreases |list| - j
    {
      RootAt(g, k, list, j);
      SetParent(childNode, e, N);
      AdoptedNext(g, list, e, j);
      DomSearch.InGraph(N, childNode);
      childNode := childNode.nextSibling;
      j := j + 1;
    }
    assert list[..j] == list;
  }

  lemma AdoptedNext(g: Graph, list: seq<Node>, e: Node, j: nat)
    requires j < |list| && list[j] in g
    ensures var u := Adopted(g, list[..j], e); u[list[j] := u[list[j]].(parent := e)] == Adopted(g, list[..j + 1], e)
    ensures Adopted(g, list[..j + 1], e)[list[j]] == g[list[j]].(parent := e)
  {
    assert list[..j + 1] == list[..j] + [list[j]];
  }

  /** ixmlNode_setSiblingNodesParent on the first of `list`, whose own parent is set already. */
  method SetSiblingNodesParent(nodeptr: Node, ghost list: seq<Node>, ghost N: set<Node>, ghost k: Shape, ghost g: Graph)
    requires Loose(g, k, list) && g.Keys == N && nodeptr.parentNode != null && list != [] && nodeptr == list[0]
    requires nodeptr in N && GraphOf(N) == Adopted(g, list[..1], nodeptr.parentNode)
    modifies N`parentNode
    ensures GraphOf(N) == Adopted(g, list, old(nodeptr.parentNode))
  {
    hide Loose, Adopted;
    var parentNode := nodeptr.parentNode;
    RootAt(g, k, list, 0);
    AdoptedNext(g, list, parentNode, 0);
    assert LinksOf(nodeptr) == GraphOf(N)[nodeptr];
    SetParents(nodeptr.nextSibling, parentNode, list, 1, N, k, g);
  }

  lemma GraphPlus(N: set<Node>, e: Node)
    ensures GraphOf(N + {e}) == GraphOf(N)[e := LinksOf(e)]
    ensures ContentsOf(N + {e}) == ContentsOf(N)[e := ContentOf(e)]
  {
  }

  /** The new element takes the copies of the children. */
  method TakeChildren(e: Node, first: Node?, ghost list: seq<Node>, ghost N: set<Node>, ghost k: Shape, ghost g: Graph)
    requires Loose(g, k, list) && GraphOf(N) == g && e !in N && first == FirstOf(list)
    requires LinksOf(e) == Links(null, null, null, null)
    modifies N`parentNode, e`firstChild
    ensures GraphOf(N + {e}) == ElementGraph(g, list, e)
    ensures ContentsOf(N + {e}) == old(ContentsOf(N + {e}))
  {
    hide Loose, Adopted;
    assert g.Keys == N;
    AdoptNone(g, list, e);
    e.firstChild := first;
    if first != null {
      RootAt(g, k, list, 0);
      SetParent(first, e, N);
      AdoptedNext(g, list, e, 0);
      SetSiblingNodesParent(first, list, N, k, g);
    }
    GraphPlus(N, e);
  }

  method TakeAllChildren(e: Node, first: Node?, ghost list: seq<Node>, ghost N: set<Node>, ghost k: Shape, ghost g: Graph)
    requires Loose(g, k, list) && GraphOf(N) == g && e !in N && first == FirstOf(list)
    requires LinksOf(e) == Links(null, null, null, null)
    modifies N`parentNode, e`firstChild, e`nextSibling
    ensures GraphOf(N + {e}) == ElementGraph(g, list, e)
    ensures ContentsOf(N + {e}) == old(ContentsOf(N + {e}))
  {
    hide Loose, Adopted;
    assert g.Keys == N;
    AdoptNone(g, list, e);
    StartElement(e, first, N);
    SetParents(first, e, list, 0, N, k, g);
    GraphPlus(N, e);
  }

  /** The two fields of the new root that are set outside the loop. */
  method StartElement(e: Node, first: Node?, ghost N: set<Node>)
    requires e !in N
    modifies e`firstChild, e`nextSibling
    ensures e.firstChild == first && e.nextSibling == null
    ensures GraphOf(N) == old(GraphOf(N)) && ContentsOf(N) == old(ContentsOf(N)) && ContentOf(e) == old(ContentOf(e))
  {
    e.firstChild := first;
    e.nextSibling := null;
  }

  lemma AdoptNone(g: Graph, list: seq<Node>, e: Node)
    ensures Adopted(g, list[..0], e) == g
    ensures list == [] ==> Adopted(g, list, e) == g
  {
  }

  /** The copy of a node gets the copies of the later siblings. */
  method LinkNext(e: Node, nextSib: Node?, ghost A: set<Node>, ghost ka: Shape, ghost B: set<Node>, ghost kb: Shape, ghost list: seq<Node>)
    requires Joinable(GraphOf(A), ka, e, GraphOf(B), kb, list) && nextSib == FirstOf(list)
    modifies e`nextSibling, B`prevSibling
    ensures GraphOf(A + B) == JoinedGraph(old(GraphOf(A)), old(GraphOf(B)), e, list)
    ensures ContentsOf(A + B) == old(ContentsOf(A)) + old(ContentsOf(B))
  {
    hide Loose, RootOk, GraphOf;
    ghost var ga, gb := GraphOf(A), GraphOf(B);
    JoinableKeys(A, ka, e, B, kb, list);
    AssignNext(e, nextSib, A + B);
    if nextSib != null {
      AssignPrev(nextSib, e, A + B);
    }
    JoinedSteps(ga, gb, e, list);
  }

  lemma JoinableKeys(A: set<Node>, ka: Shape, e: Node, B: set<Node>, kb: Shape, list: seq<Node>)
    requires Joinable(GraphOf(A), ka, e, GraphOf(B), kb, list)
    ensures e in A && e !in B && (list != [] ==> list[0] in B && list[0] !in A)
    ensures e in GraphOf(A) && e !in GraphOf(B) && (list != [] ==> list[0] in GraphOf(B) && list[0] !in GraphOf(A))
    ensures GraphOf(A + B) == GraphOf(A) + GraphOf(B)
    ensures ContentsOf(A + B) == ContentsOf(A) + ContentsOf(B)
  {
    hide Loose;
    assert GraphOf(A).Keys == A && GraphOf(B).Keys == B;
    if list != [] {
      RootAt(GraphOf(B), kb, list, 0);
    }
  }

  lemma JoinedSteps(ga: Graph, gb: Graph, e: Node, list: seq<Node>)
    requires e in ga && e !in gb && (list != [] ==> list[0] in gb && list[0] !in ga)
    ensures var g := SetNext(ga + gb, e, FirstOf(list));
            JoinedGraph(ga, gb, e, list) == if list == [] then g else SetPrev(g, list[0], e)
  {
    assert SetNext(ga + gb, e, FirstOf(list)) == SetNext(ga, e, FirstOf(list)) + gb;
  }

  // ----- ixmlNode_cloneNodeTreeRecursive -----

  /** The copy of the first of `siblings`, with the later ones when the copy is deep. */
  function Cloned(siblings: seq<Tree>, deep: bool): seq<Tree> {
    if deep || siblings == [] then CloneSiblings(siblings)
    else match siblings[0]
      case Element(name, attrs, _) => [Element(name, attrs, [])]
      case leaf => [leaf]
  }

  /** The nodes `N` hold copies of `trees`, starting at `first`. */
  ghost predicate Built(N: set<Node>, k: Shape, list: seq<Node>, first: Node?, trees: seq<Tree>)
    reads N
  {
    first == FirstOf(list) && Holds(N, k, list, trees)
  }

  lemma BuiltNothing()
    ensures Built({}, map[], [], null, [])
  {
  }

  lemma BuiltLeaf(e: Node)
    requires LinksOf(e) == Links(null, null, null, null)
    requires e.nodeType.eTEXT_NODE? || e.nodeType.eCDATA_SECTION_NODE?
    ensures Built({e}, map[e := Place([], 0, 0)], [e], e,
                  [if e.nodeType.eTEXT_NODE? then TextNode(e.nodeValue) else CDataNode(e.nodeValue)])
  {
    hide View;
    var g, k, m := GraphOf({e}), map[e := Place([], 0, 0)], ContentsOf({e});
    assert Loose(g, k, [e]);
    LooseIsRanked(g, k, [e]);
    LeafView(k, m, e);
    assert Views(k, m, [e]) == [View(k, m, e)] + Views(k, m, []);
  }

  lemma LeafView(k: Shape, m: Contents, e: Node)
    requires Ranked(k) && e in k && m.Keys == k.Keys
    ensures m[e].nodeType.eTEXT_NODE? ==> View(k, m, e) == TextNode(m[e].value)
    ensures m[e].nodeType.eCDATA_SECTION_NODE? ==> View(k, m, e) == CDataNode(m[e].value)
  {
  }

  /** The element over the copies of its children. */
  lemma BuiltElement(N: set<Node>, g: Graph, k: Shape, m: Contents, list: seq<Node>, e: Node)
    requires Loose(g, k, list) && N == g.Keys && m.Keys == N && e !in N && e.nodeType.eELEMENT_NODE?
    requires GraphOf(N + {e}) == ElementGraph(g, list, e) && ContentsOf(N + {e}) == m[e := ContentOf(e)]
    requires Ranked(k) && k.Keys == N && forall i | 0 <= i < |list| :: list[i] in k
    ensures Agrees(GraphOf(N + {e}), ElementShape(k, list, e))
    ensures Ranked(ElementShape(k, list, e)) && e in ElementShape(k, list, e) && ContentsOf(N + {e}).Keys == ElementShape(k, list, e).Keys
    ensures View(ElementShape(k, list, e), ContentsOf(N + {e}), e) == Element(e.nodeName, e.attributes, Views(k, m, list))
    ensures Loose(GraphOf(N + {e}), ElementShape(k, list, e), [e])
  {
    hide Loose, Views, View, Ranked, Agrees, UpOk, DownOk;
    ElementView(g, k, m, list, e, ContentOf(e));
    ElementIsTree(g, k, list, e);
    ElementOnlyRoot(g, k, list, e);
  }

  lemma ElementOnlyRoot(g: Graph, k: Shape, list: seq<Node>, e: Node)
    requires Loose(g, k, list) && e !in g
    ensures Loose(ElementGraph(g, list, e), ElementShape(k, list, e), [e])
  {
    hide Loose, Agrees, UpOk, DownOk;
    ElementIsTree(g, k, list, e);
    var g' := ElementGraph(g, list, e);
    forall n | n in g' && n != e ensures g'[n].parent != null {
      InnerAt(g, k, list, n);
    }
    TreeIsLoose(g', ElementShape(k, list, e), e);
  }

  lemma BuiltFacts(N: set<Node>, k: Shape, list: seq<Node>, first: Node?, trees: seq<Tree>)
    requires Built(N, k, list, first, trees)
    ensures first == FirstOf(list) && Loose(GraphOf(N), k, list) && GraphOf(N).Keys == k.Keys == N == ContentsOf(N).Keys
    ensures Ranked(k) && (forall i | 0 <= i < |list| :: list[i] in k) && Views(k, ContentsOf(N), list) == trees
  {
    hide Loose, Views, Ranked;
    LooseIsRanked(GraphOf(N), k, list);
  }

  lemma BuiltIntro(N: set<Node>, k: Shape, list: seq<Node>, first: Node?, trees: seq<Tree>)
    requires first == FirstOf(list) && Loose(GraphOf(N), k, list) && ContentsOf(N).Keys == k.Keys
    requires Ranked(k) && (forall i | 0 <= i < |list| :: list[i] in k) && Views(k, ContentsOf(N), list) == trees
    ensures Built(N, k, list, first, trees)
  {
    hide Loose, Views, Ranked;
    LooseIsRanked(GraphOf(N), k, list);
  }

  /** Once the links are set, the new element over the copies of its children is a tree of its own. */
  lemma ElementBuilt(e: Node, N: set<Node>, g: Graph, k: Shape, m: Contents, list: seq<Node>, trees: seq<Tree>)
    requires Loose(g, k, list) && g.Keys == k.Keys == N == m.Keys && Ranked(k) && (forall i | 0 <= i < |list| :: list[i] in k)
    requires Views(k, m, list) == trees && e !in N && e.nodeType.eELEMENT_NODE?
    requires GraphOf(N + {e}) == ElementGraph(g, list, e) && ContentsOf(N + {e}) == m[e := ContentOf(e)]
    ensures Agrees(GraphOf(N + {e}), ElementShape(k, list, e)) && e.parentNode == null
    ensures Built(N + {e}, ElementShape(k, list, e), [e], e, [Element(e.nodeName, e.attributes, trees)])
  {
    hide Loose, Views, View, Ranked, Built, ElementShape, Agrees, UpOk, DownOk;
    BuiltElement(N, g, k, m, list, e);
    OneView(ElementShape(k, list, e), ContentsOf(N + {e}), e);
    assert GraphOf(N + {e})[e] == LinksOf(e);
    BuiltIntro(N + {e}, ElementShape(k, list, e), [e], e, [Element(e.nodeName, e.attributes, trees)]);
  }

  /** The end of the element branch of the recursion. */
  method FinishElement(e: Node, first: Node?, ghost N: set<Node>, ghost k: Shape, ghost list: seq<Node>, ghost trees: seq<Tree>)
    requires Built(N, k, list, first, trees) && e !in N && LinksOf(e) == Links(null, null, null, null) && e.nodeType.eELEMENT_NODE?
    modifies N`parentNode, e`firstChild
    ensures Agrees(GraphOf(N + {e}), ElementShape(k, list, e)) && e.parentNode == null
    ensures Built(N + {e}, ElementShape(k, list, e), [e], e, [Element(e.nodeName, e.attributes, trees)])
  {
    hide Loose, Views, View, Ranked, Built, ElementShape, ElementGraph, Agrees, UpOk, DownOk, GraphOf;
    BuiltFacts(N, k, list, first, trees);
    ghost var g, m := GraphOf(N), ContentsOf(N);
    GraphPlus(N, e);
    TakeChildren(e, first, list, N, k, g);
    ElementBuilt(e, N, g, k, m, list, trees);
  }

  /** The end of the element branch of ixmlNode_cloneNodeTree, with a loop of its own. */
  method FinishRoot(e: Node, first: Node?, ghost N: set<Node>, ghost k: Shape, ghost list: seq<Node>, ghost trees: seq<Tree>)
    requires Built(N, k, list, first, trees) && e !in N && LinksOf(e) == Links(null, null, null, null) && e.nodeType.eELEMENT_NODE?
    modifies N`parentNode, e`firstChild, e`nextSibling
    ensures Agrees(GraphOf(N + {e}), ElementShape(k, list, e)) && e.parentNode == null
    ensures Built(N + {e}, ElementShape(k, list, e), [e], e, [Element(e.nodeName, e.attributes, trees)])
  {
    hide Loose, Views, View, Ranked, Built, ElementShape, ElementGraph, Agrees, UpOk, DownOk, GraphOf;
    BuiltFacts(N, k, list, first, trees);
    ghost var g, m := GraphOf(N), ContentsOf(N);
    GraphPlus(N, e);
    TakeAllChildren(e, first, list, N, k, g);
    ElementBuilt(e, N, g, k, m, list, trees);
  }

  lemma OneView(k: Shape, m: Contents, e: Node)
    requires Ranked(k) && e in k && m.Keys == k.Keys
    ensures Views(k, m, [e]) == [View(k, m, e)]
  {
    hide View, Ranked;
    assert Views(k, m, [e]) == [View(k, m, e)] + Views(k, m, []);
  }

  /** The copy of the first sibling before the copies of the later ones. */
  method FinishSiblings(e: Node, nextSib: Node?, ghost A: set<Node>, ghost ka: Shape, ghost tree: Tree,
                        ghost B: set<Node>, ghost kb: Shape, ghost list: seq<Node>, ghost trees: seq<Tree>)
    requires Built(A, ka, [e], e, [tree]) && Built(B, kb, list, nextSib, trees) && A !! B && e in A
    modifies e`nextSibling, B`prevSibling
    ensures Built(A + B, JoinedShape(ka, kb, list), [e] + list, e, [tree] + trees)
  {
    hide Loose, Views, View, Ranked, Built, JoinedShape, JoinedGraph, Agrees, UpOk, DownOk;
    BuiltFacts(A, ka, [e], e, [tree]);
    BuiltFacts(B, kb, list, nextSib, trees);
    ghost var ga, gb, ma, mb := GraphOf(A), GraphOf(B), ContentsOf(A), ContentsOf(B);
    OneView(ka, ma, e);
    LinkNext(e, nextSib, A, ka, B, kb, list);
    JoinedIsLoose(ga, ka, e, gb, kb, list);
    JoinedViews(ga, ka, ma, e, gb, kb, mb, list);
    BuiltIntro(A + B, JoinedShape(ka, kb, list), [e] + list, e, [tree] + trees);
  }

  /** What a node and its later siblings look like, seen from the node. */
  lemma CloneStep(S: set<Node>, g: Graph, m: Contents, r: Steps, n: Node, deep: bool)
    requires Snapshot(S, g, m) && Walkable(g, m, r) && n in S && !n.nodeType.eDOCUMENT_NODE?
    ensures g.Keys == m.Keys == S && g[n] == LinksOf(n)
    ensures n.nodeType.eELEMENT_NODE? || n.nodeType.eTEXT_NODE? || n.nodeType.eCDATA_SECTION_NODE?
    ensures InUse(n.firstChild, S) && (n.firstChild != null ==> !n.firstChild.nodeType.eDOCUMENT_NODE?)
    ensures InUse(n.nextSibling, S) && (n.nextSibling != null ==> !n.nextSibling.nodeType.eDOCUMENT_NODE?)
    ensures Ahead(r, n.firstChild) < Ahead(r, n) && Ahead(r, n.nextSibling) < Ahead(r, n)
    ensures var trees := Cloned(Forest(g, m, r, n), deep);
            if n.nodeType.eTEXT_NODE? then trees == [TextNode(n.nodeValue)]
            else if n.nodeType.eCDATA_SECTION_NODE? then trees == [CDataNode(n.nodeValue)]
            else if deep then
              trees == [Element(n.nodeName, n.attributes, Cloned(Forest(g, m, r, n.firstChild), deep))]
                       + Cloned(Forest(g, m, r, n.nextSibling), deep)
            else trees == [Element(n.nodeName, n.attributes, [])]
  {
    hide Walkable, Forest, TreeOf, Snapshot;
    SnapshotAt(S, g, m, n);
    ForestUnfolds(g, m, r, n);
    if n.firstChild != null {
      SnapshotAt(S, g, m, n.firstChild);
    }
    if n.nextSibling != null {
      SnapshotAt(S, g, m, n.nextSibling);
    }
    assert Forest(g, m, r, n)[1..] == Forest(g, m, r, n.nextSibling);
  }

  lemma CloneNothing(g: Graph, m: Contents, r: Steps, deep: bool)
    requires Walkable(g, m, r)
    ensures Cloned(Forest(g, m, r, null), deep) == []
  {
    hide Walkable;
  }

  /** A new node that belongs to no document. */
  ghost predicate IsCopy(x: Node)
    reads x
  {
    x.ownerDocument == null && x.nodeType in {eELEMENT_NODE, eTEXT_NODE, eCDATA_SECTION_NODE}
  }

  /**
   ixmlNode_cloneNodeTreeRecursive on a node that is no document.  The copies
   belong to no document.
   */
  method CloneNodeTreeRecursive(nodeptr: Node?, deep: bool, ghost S: set<Node>, ghost g: Graph, ghost m: Contents, ghost r: Steps)
    returns (newNode: Node?, ghost N: set<Node>, ghost kN: Shape, ghost list: seq<Node>)
    requires Snapshot(S, g, m) && Walkable(g, m, r)
    requires nodeptr != null ==> nodeptr in S && nodeptr in g && !nodeptr.nodeType.eDOCUMENT_NODE?
    ensures fresh(N) && forall x | x in N :: IsCopy(x)
    ensures Built(N, kN, list, newNode, Cloned(Forest(g, m, r, nodeptr), deep))
    decreases Ahead(r, nodeptr)
  {
    hide Snapshot, Walkable, Forest, Ahead, Agrees, UpOk, DownOk, Cloned, Built;
    if nodeptr == null {
      CloneNothing(g, m, r, deep);
      BuiltNothing();
      return null, {}, map[], [];
    }
    CloneStep(S, g, m, r, nodeptr, deep);
    if nodeptr.nodeType == eELEMENT_NODE {
      newNode, N, kN, list := CloneElementNode(nodeptr, deep, S, g, m, r);
    } else {
      newNode := new Node(nodeptr.nodeType, nodeptr.nodeName, nodeptr.nodeValue, []);
      N, kN, list := {newNode}, map[newNode := Place([], 0, 0)], [newNode];
      BuiltLeaf(newNode);
    }
  }

  /** The element branch. */
  method CloneElementNode(n: Node, deep: bool, ghost S: set<Node>, ghost g: Graph, ghost m: Contents, ghost r: Steps)
    returns (newElement: Node, ghost N: set<Node>, ghost kN: Shape, ghost list: seq<Node>)
    requires Snapshot(S, g, m) && Walkable(g, m, r) && n in S && n in g && n.nodeType.eELEMENT_NODE?
    ensures fresh(N) && forall x | x in N :: IsCopy(x)
    ensures Built(N, kN, list, newElement, Cloned(Forest(g, m, r, n), deep))
    decreases Ahead(r, n), 0
  {
    hide Snapshot, Walkable, Forest, Ahead, Agrees, UpOk, DownOk, Cloned, Built, ElementShape, JoinedShape;
    CloneStep(S, g, m, r, n, deep);
    newElement := new Node(eELEMENT_NODE, n.nodeName, n.nodeValue, n.attributes);
    if deep {
      var first, N1, k1, list1 := CloneNodeTreeRecursive(n.firstChild, deep, S, g, m, r);
      FinishElement(newElement, first, N1, k1, list1, Cloned(Forest(g, m, r, n.firstChild), deep));
      var nextSib, N2, k2, list2 := CloneNodeTreeRecursive(n.nextSibling, deep, S, g, m, r);
      ghost var tree := Element(newElement.nodeName, newElement.attributes, Cloned(Forest(g, m, r, n.firstChild), deep));
      FinishSiblings(newElement, nextSib, N1 + {newElement}, ElementShape(k1, list1, newElement), tree,
                     N2, k2, list2, Cloned(Forest(g, m, r, n.nextSibling), deep));
      N, kN, list := N1 + {newElement} + N2, JoinedShape(ElementShape(k1, list1, newElement), k2, list2), [newElement] + list2;
    } else {
      BuiltNothing();
      FinishElement(newElement, null, {}, map[], [], []);
      N, kN, list := {} + {newElement}, ElementShape(map[], [], newElement), [newElement];
    }
  }

  // ----- ixmlNode_cloneNode -----

  /** The copy of one node. */
  function CopyOf(t: Tree, deep: bool): Tree {
    match t
    case Element(name, attrs, kids) => Element(name, attrs, if deep then CloneSiblings(kids) else [])
    case leaf => leaf
  }

  /** A deep copy prints exactly the text of its source. */
  lemma CopyPrintsTheSame(t: Tree)
    ensures PrintNode(CopyOf(t, true)) == PrintNode(t)
  {
    if t.Element? {
      ClonePrintsTheSame(t.kids);
    }
  }

  /** The children that the copy of a node gets. */
  ghost function CopiedKids(g: Graph, m: Contents, r: Steps, n: Node, deep: bool): seq<Tree>
    requires Walkable(g, m, r) && n in g
  {
    WalkAt(g, m, r, n);
    if deep then CloneSiblings(Forest(g, m, r, g[n].first)) else []
  }

  lemma RootFacts(S: set<Node>, g: Graph, m: Contents, r: Steps, n: Node, deep: bool)
    requires Snapshot(S, g, m) && Walkable(g, m, r) && n in S
    ensures n in g && n in m && m[n] == ContentOf(n) && g[n].first == n.firstChild && InUse(n.firstChild, S) && g.Keys == m.Keys == S
    ensures n.firstChild != null ==> n.firstChild in g && !n.firstChild.nodeType.eDOCUMENT_NODE?
    ensures n.nodeType in {eELEMENT_NODE, eTEXT_NODE, eCDATA_SECTION_NODE, eDOCUMENT_NODE}
    ensures deep ==> CopiedKids(g, m, r, n, deep) == Cloned(Forest(g, m, r, n.firstChild), deep)
    ensures !deep ==> CopiedKids(g, m, r, n, deep) == []
    ensures var copy := CopyOf(TreeOf(g, m, r, n), deep);
            if n.nodeType.eTEXT_NODE? then copy == TextNode(n.nodeValue)
            else if n.nodeType.eCDATA_SECTION_NODE? then copy == CDataNode(n.nodeValue)
            else copy == Element(n.nodeName, n.attributes, CopiedKids(g, m, r, n, deep))
  {
    hide Walkable, Forest, TreeOf, Snapshot;
    SnapshotAt(S, g, m, n);
    ForestUnfolds(g, m, r, n);
    if n.firstChild != null {
      SnapshotAt(S, g, m, n.firstChild);
    }
  }

  /** One new tree, with this value, whose root is `root`. */
  ghost predicate NewTree(N: set<Node>, k: Shape, root: Node, tree: Tree)
    reads N
  {
    && Agrees(GraphOf(N), k) && root in N
    && (ForestIsRanked(GraphOf(N), k); View(k, ContentsOf(N), root) == tree)
  }

  lemma BuiltTree(N: set<Node>, k: Shape, e: Node, tree: Tree)
    requires Agrees(GraphOf(N), k) && Built(N, k, [e], e, [tree])
    ensures NewTree(N, k, e, tree)
  {
    hide Agrees, Loose, Views, View, Ranked, Built;
    BuiltFacts(N, k, [e], e, [tree]);
    OneView(k, ContentsOf(N), e);
  }

  lemma LeafTree(e: Node)
    requires LinksOf(e) == Links(null, null, null, null)
    requires e.nodeType.eTEXT_NODE? || e.nodeType.eCDATA_SECTION_NODE?
    ensures NewTree({e}, map[e := Place([], 0, 0)], e, if e.nodeType.eTEXT_NODE? then TextNode(e.nodeValue) else CDataNode(e.nodeValue))
  {
    hide View;
    var g, k, m := GraphOf({e}), map[e := Place([], 0, 0)], ContentsOf({e});
    assert Agrees(g, k);
    ForestIsRanked(g, k);
    LeafView(k, m, e);
  }

  /** A tree of copies can be walked, so that it can be printed and copied in turn. */
  lemma CopyIsWalkable(N: set<Node>, k: Shape, root: Node, tree: Tree) returns (r: Steps)
    requires NewTree(N, k, root, tree) && forall x | x in N :: IsCopy(x)
    ensures Walkable(GraphOf(N), ContentsOf(N), r) && root in GraphOf(N) && TreeOf(GraphOf(N), ContentsOf(N), r, root) == tree
  {
    hide Agrees, Walkable, View, TreeOf;
    var g, m := GraphOf(N), ContentsOf(N);
    r := TreeSteps(g, k);
    TreesAreWalkable(g, k, m);
    TreeOfIsView(g, k, m, r, root);
  }

  /**
   ixmlNode_cloneNode on a node that is no document: a new tree without a parent, the
   copy of the source.
   */
  method CloneNode(nodeptr: Node, deep: bool, ghost S: set<Node>, ghost g: Graph, ghost m: Contents, ghost r: Steps)
    returns (newNode: Node, ghost N: set<Node>, ghost kN: Shape, ghost rN: Steps)
    requires Snapshot(S, g, m) && Walkable(g, m, r) && nodeptr in S && !nodeptr.nodeType.eDOCUMENT_NODE?
    ensures nodeptr in g && nodeptr in m
    ensures fresh(N) && NewTree(N, kN, newNode, CopyOf(TreeOf(g, m, r, nodeptr), deep))
    ensures newNode.parentNode == null && forall x | x in N :: IsCopy(x)
    ensures Walkable(GraphOf(N), ContentsOf(N), rN) && newNode in GraphOf(N)
    ensures TreeOf(GraphOf(N), ContentsOf(N), rN, newNode) == CopyOf(TreeOf(g, m, r, nodeptr), deep)
  {
    hide Snapshot, Agrees, UpOk, DownOk, Walkable, TreeOf, Cloned, Built, ElementShape, View, NewTree, CopyOf, CopiedKids, Ranked;
    RootFacts(S, g, m, r, nodeptr, deep);
    newNode, N, kN := CloneNodeTree(nodeptr, deep, S, g, m, r);
    rN := CopyIsWalkable(N, kN, newNode, CopyOf(TreeOf(g, m, r, nodeptr), deep));
  }

  /** ixmlNode_cloneNodeTree */
  method CloneNodeTree(nodeptr: Node, deep: bool, ghost S: set<Node>, ghost g: Graph, ghost m: Contents, ghost r: Steps)
    returns (newNode: Node, ghost N: set<Node>, ghost kN: Shape)
    requires Snapshot(S, g, m) && Walkable(g, m, r) && nodeptr in S && !nodeptr.nodeType.eDOCUMENT_NODE?
    ensures nodeptr in g && fresh(N) && NewTree(N, kN, newNode, CopyOf(TreeOf(g, m, r, nodeptr), deep))
    ensures newNode.parentNode == null && forall x | x in N :: IsCopy(x)
  {
    hide Snapshot, Agrees, UpOk, DownOk, Walkable, Forest, TreeOf, Cloned, Built, ElementShape, View, NewTree, CopyOf, CopiedKids, Ranked;
    RootFacts(S, g, m, r, nodeptr, deep);
    if nodeptr.nodeType == eELEMENT_NODE {
      newNode := new Node(eELEMENT_NODE, nodeptr.nodeName, nodeptr.nodeValue, nodeptr.attributes);
      ghost var N1, k1, list: seq<Node>, kids: seq<Tree> := {}, map[], [], [];
      BuiltNothing();
      if deep {
        var first;
        first, N1, k1, list := CloneNodeTreeRecursive(nodeptr.firstChild, deep, S, g, m, r);
        kids := CopiedKids(g, m, r, nodeptr, deep);
        FinishRoot(newNode, first, N1, k1, list, kids);
      } else {
        FinishRoot(newNode, null, N1, k1, list, kids);
      }
      N, kN := N1 + {newNode}, ElementShape(k1, list, newNode);
      BuiltTree(N, kN, newNode, Element(nodeptr.nodeName, nodeptr.attributes, kids));
    } else {
      newNode := new Node(nodeptr.nodeType, nodeptr.nodeName, nodeptr.nodeValue, []);
      N, kN := {newNode}, map[newNode := Place([], 0, 0)];
      LeafTree(newNode);
    }
  }

  // ----- the copy of a document -----

  /** The links of the new document: only the first of the copied children gets a parent. */
  ghost function DocumentGraph(g: Graph, list: seq<Node>, d: Node): Graph {
    Adopted(g, if list == [] then [] else [list[0]], d)[d := Links(null, FirstOf(list), null, null)]
  }

  /** With two children or more the new document is no tree, whatever the shape. */
  lemma LaterChildrenHaveNoParent(g: Graph, k: Shape, list: seq<Node>, d: Node, k': Shape)
    requires Loose(g, k, list) && d !in g && |list| > 1
    ensures !Agrees(DocumentGraph(g, list, d), k')
  {
    hide Loose, Agrees, UpOk, DownOk;
    RootAt(g, k, list, 0);
    RootAt(g, k, list, 1);
    var u := DocumentGraph(g, list, d);
    if Agrees(u, k') {
      NoParentNoSibling(u, k', list[1]);
    }
  }

  /** With one child at most it is a tree. */
  lemma OneChildIsTree(g: Graph, k: Shape, m: Contents, list: seq<Node>, d: Node, c: Content)
    requires Loose(g, k, list) && g.Keys == k.Keys == m.Keys && d !in g && c.nodeType.eDOCUMENT_NODE? && |list| <= 1
    requires Ranked(k) && forall i | 0 <= i < |list| :: list[i] in k
    ensures var k', m' := ElementShape(k, list, d), m[d := c];
            && Agrees(DocumentGraph(g, list, d), k')
            && Ranked(k') && d in k' && m'.Keys == k'.Keys && View(k', m', d) == Element(c.name, c.attrs, Views(k, m, list))
  {
    hide Loose, Agrees, UpOk, DownOk, View, Views, Ranked, ElementShape;
    assert list == if list == [] then [] else [list[0]];
    ElementIsTree(g, k, list, d);
    ElementView(g, k, m, list, d, c);
  }

  /** The number of children does not matter to a walk: it finds the copies of all that were copied. */
  lemma DocumentIsWalkable(g: Graph, k: Shape, m: Contents, list: seq<Node>, d: Node, c: Content) returns (r: Steps)
    requires Loose(g, k, list) && g.Keys == k.Keys == m.Keys && d !in g && c.nodeType.eDOCUMENT_NODE?
    requires Ranked(k) && (forall i | 0 <= i < |list| :: list[i] in k)
    requires forall n | n in m :: m[n].nodeType in {eELEMENT_NODE, eTEXT_NODE, eCDATA_SECTION_NODE}
    ensures Walkable(DocumentGraph(g, list, d), m[d := c], r) && (list != [] ==> list[0] in g)
    ensures Forest(DocumentGraph(g, list, d), m[d := c], r, FirstOf(list)) == Views(k, m, list)
  {
    hide *;
    var e, k', m' := ElementGraph(g, list, d), ElementShape(k, list, d), m[d := c];
    ElementIsTree(g, k, list, d);
    ElementView(g, k, m, list, d, c);
    r := TreeSteps(e, k');
    DocumentParts(g, k, m, list, d, c);
    TreesAreWalkable(e, k', m');
    TreeOfIsView(e, k', m', r, d);
    ForestUnfolds(e, m', r, d);
    SameForest(e, DocumentGraph(g, list, d), m', r, FirstOf(list));
  }

  /** The new document has the first links, next links and node types of a tree. */
  lemma DocumentParts(g: Graph, k: Shape, m: Contents, list: seq<Node>, d: Node, c: Content)
    requires Loose(g, k, list) && g.Keys == m.Keys && d !in g && c.nodeType.eDOCUMENT_NODE?
    requires forall n | n in m :: m[n].nodeType in {eELEMENT_NODE, eTEXT_NODE, eCDATA_SECTION_NODE}
    ensures d in ElementGraph(g, list, d) && ElementGraph(g, list, d)[d] == Links(null, FirstOf(list), null, null)
    ensures list != [] ==> list[0] in g && list[0] in ElementGraph(g, list, d)
    ensures Markup(ElementGraph(g, list, d), m[d := c]) && SameWalks(ElementGraph(g, list, d), DocumentGraph(g, list, d))
  {
    hide Loose;
    if list != [] {
      RootAt(g, k, list, 0);
    }
  }

  const DOCUMENTNODENAME: string := "#document"

  /**
   ixmlNode_cloneNode on a document.  Whatever the number of children, a walk over the
   copy finds the copies of them; it is a tree exactly when at most one is copied.
   */
  method CloneDocument(doc: Node, deep: bool, ghost S: set<Node>, ghost g: Graph, ghost m: Contents, ghost r: Steps)
    returns (newDoc: Node, ghost N: set<Node>, ghost kN: Shape, ghost rN: Steps)
    requires Snapshot(S, g, m) && Walkable(g, m, r) && doc in S && doc.nodeType.eDOCUMENT_NODE?
    ensures doc in g && fresh(N) && newDoc in N && newDoc.nodeType == eDOCUMENT_NODE && newDoc.parentNode == null
    ensures Walkable(GraphOf(N), ContentsOf(N), rN) && (newDoc.firstChild != null ==> newDoc.firstChild in GraphOf(N))
    ensures Forest(GraphOf(N), ContentsOf(N), rN, newDoc.firstChild) == CopiedKids(g, m, r, doc, deep)
    ensures |CopiedKids(g, m, r, doc, deep)| <= 1 ==>
              NewTree(N, kN, newDoc, Element(DOCUMENTNODENAME, [], CopiedKids(g, m, r, doc, deep)))
    ensures |CopiedKids(g, m, r, doc, deep)| > 1 ==> forall k' :: !Agrees(GraphOf(N), k')
  {
    hide Snapshot, Agrees, UpOk, DownOk, Walkable, Forest, TreeOf, Cloned, Built, ElementShape, View, NewTree, CopiedKids, Ranked, Views,
         Loose, GraphOf, ContentsOf, DocumentGraph, CopyOf, Ahead;
    RootFacts(S, g, m, r, doc, deep);
    newDoc := new Node(eDOCUMENT_NODE, DOCUMENTNODENAME, "", []);
    var first: Node? := null;
    ghost var N1, k1, list: seq<Node> := {}, map[], [];
    ghost var kids := CopiedKids(g, m, r, doc, deep);
    BuiltNothing();
    if deep {
      first, N1, k1, list := CloneNodeTreeRecursive(doc.firstChild, deep, S, g, m, r);
    }
    N, kN := N1 + {newDoc}, ElementShape(k1, list, newDoc);
    BuiltFacts(N1, k1, list, first, kids);
    CopiesOnly(N1);
    ghost var g1, m1 := GraphOf(N1), ContentsOf(N1);
    SetFirstChild(newDoc, first, N1, k1, list, g1);
    DocumentBuilt(newDoc, N1, g1, k1, m1, list, kids);
    rN := DocumentIsWalkable(g1, k1, m1, list, newDoc, ContentOf(newDoc));
    InGraphKeys(N);
  }

  lemma CopiesOnly(N: set<Node>)
    requires forall x | x in N :: IsCopy(x)
    ensures var m := ContentsOf(N); forall n | n in m :: m[n].nodeType in {eELEMENT_NODE, eTEXT_NODE, eCDATA_SECTION_NODE}
  {
  }

  method SetFirstChild(d: Node, first: Node?, ghost N: set<Node>, ghost k: Shape, ghost list: seq<Node>, ghost g: Graph)
    requires Loose(g, k, list) && g == GraphOf(N) && d !in N && first == FirstOf(list) && LinksOf(d) == Links(null, null, null, null)
    modifies d`firstChild, d`nextSibling, N`parentNode
    ensures GraphOf(N + {d}) == DocumentGraph(g, list, d) && d.parentNode == null && d.firstChild == first
    ensures ContentsOf(N + {d}) == old(ContentsOf(N))[d := ContentOf(d)]
  {
    hide Loose, GraphOf, ContentsOf;
    InGraphKeys(N);
    StartElement(d, first, N);
    if first != null {
      RootAt(g, k, list, 0);
      SetParent(first, d, N);
      AdoptFirst(g, list, d);
    } else {
      AdoptNone(g, list, d);
    }
    GraphPlus(N, d);
  }

  lemma InGraphKeys(N: set<Node>)
    ensures GraphOf(N).Keys == N == ContentsOf(N).Keys
  {
  }

  lemma AdoptFirst(g: Graph, list: seq<Node>, d: Node)
    requires list != [] && list[0] in g
    ensures Adopted(g, [list[0]], d) == g[list[0] := g[list[0]].(parent := d)]
  {
  }

  lemma DocumentBuilt(d: Node, N: set<Node>, g: Graph, k: Shape, m: Contents, list: seq<Node>, trees: seq<Tree>)
    requires Loose(g, k, list) && g.Keys == k.Keys == N == m.Keys && Ranked(k) && (forall i | 0 <= i < |list| :: list[i] in k)
    requires Views(k, m, list) == trees && d !in N && d.nodeType.eDOCUMENT_NODE?
    requires GraphOf(N + {d}) == DocumentGraph(g, list, d) && ContentsOf(N + {d}) == m[d := ContentOf(d)]
    ensures |trees| <= 1 ==> NewTree(N + {d}, ElementShape(k, list, d), d, Element(d.nodeName, d.attributes, trees))
    ensures |trees| > 1 ==> forall k' :: !Agrees(GraphOf(N + {d}), k')
  {
    hide Loose, Views, View, Ranked, Built, ElementShape, DocumentGraph, Agrees, UpOk, DownOk, GraphOf, ContentsOf;
    if |list| <= 1 {
      OneChildIsTree(g, k, m, list, d, ContentOf(d));
    } else {
      forall k' ensures !Agrees(GraphOf(N + {d}), k') {
        LaterChildrenHaveNoParent(g, k, list, d, k');
      }
    }
  }

  // ----- copies print like their sources -----

  lemma SnapshotNow(S: set<Node>)
    ensures Snapshot(S, GraphOf(S), ContentsOf(S)) && GraphOf(S).Keys == S
  {
  }

  /** A node whose tree is a deep copy of that of another node has its text. */
  lemma CopyText(g: Graph, m: Contents, r: Steps, n: Node, g': Graph, m': Contents, r': Steps, n': Node)
    requires Walkable(g, m, r) && n in g && n in m && !m[n].nodeType.eDOCUMENT_NODE?
    requires Walkable(g', m', r') && n' in g' && n' in m' && !m'[n'].nodeType.eDOCUMENT_NODE?
    requires TreeOf(g', m', r', n') == CopyOf(TreeOf(g, m, r, n), true)
    ensures NodeText(g', m', r', n') == NodeText(g, m, r, n)
  {
    hide Walkable, WalkOk, TreeOf, Forest, PrintNode, CopyOf;
    CopyPrintsTheSame(TreeOf(g, m, r, n));
  }

  /** A deep copy of a document prints the text of the document, for every number of children. */
  method PrintDocumentAndCopy(doc: Node, ghost S: set<Node>, ghost g: Graph, ghost m: Contents, ghost r: Steps)
    returns (source: string, copy: string)
    requires Snapshot(S, g, m) && Walkable(g, m, r) && doc in S && doc.nodeType.eDOCUMENT_NODE?
    ensures copy == source
  {
    hide Snapshot, Walkable, Forest, PrintSiblings, NewTree, Agrees;
    RootFacts(S, g, m, r, doc, true);
    source := DocumentToString(doc, S, g, m, r);
    ghost var N, kN, rN;
    var newDoc;
    newDoc, N, kN, rN := CloneDocument(doc, true, S, g, m, r);
    SnapshotNow(N);
    copy := DocumentToString(newDoc, N, GraphOf(N), ContentsOf(N), rN);
    ClonePrintsTheSame(Forest(g, m, r, doc.firstChild));
  }

  /** And so does a deep copy of any other node. */
  method PrintNodeAndCopy(node: Node, ghost S: set<Node>, ghost g: Graph, ghost m: Contents, ghost r: Steps)
    returns (source: string, copy: string)
    requires Snapshot(S, g, m) && Walkable(g, m, r) && node in S && !node.nodeType.eDOCUMENT_NODE?
    ensures copy == source
  {
    hide Snapshot, Walkable, TreeOf, Forest, PrintNode, NewTree, Agrees, CopyOf, NodeText;
    RootFacts(S, g, m, r, node, true);
    source := NodeToString(node, S, g, m, r);
    ghost var N, kN, rN;
    var newNode;
    newNode, N, kN, rN := CloneNode(node, true, S, g, m, r);
    SnapshotNow(N);
    copy := NodeToString(newNode, N, GraphOf(N), ContentsOf(N), rN);
    CopyText(g, m, r, node, GraphOf(N), ContentsOf(N), rN, newNode);
  }
}
