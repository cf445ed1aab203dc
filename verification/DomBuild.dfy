/**
 The document that the parser builds: nodes are created, appended to the current
 node and left again, while the path from the document to the current node
 stands for the whole.
 */
module DomBuild {
  import opened Dom
  import opened DomClone
  import opened DomOps
  import opened DomSearch
  import opened DomView
  import opened XmlMachine
  import opened XmlTree

  // ----- the path, seen on the nodes -----

  /** The finished children of a node on the path: the last child is the next node of the path, if there is one. */
  ghost function DoneKids(k: Shape, nodes: seq<Node>, i: nat): seq<Node>
    requires i < |nodes| && nodes[i] in k
  {
    var kids := k[nodes[i]].kids;
    if i + 1 < |nodes| && kids != [] then kids[..|kids| - 1] else kids
  }

  /** One node of the path. */
  ghost predicate FrameOk(g: Graph, k: Shape, m: Contents, nodes: seq<Node>, path: seq<Frame>, i: nat)
    requires Agrees(g, k) && m.Keys == g.Keys && |nodes| == |path| && i < |nodes| && nodes[i] in g
  {
    KeysAgree(g, k);
    var n := nodes[i];
    && m[n].name == path[i].nodeName && m[n].attrs == path[i].attrs
    && m[n].nodeType == (if i == 0 then eDOCUMENT_NODE else eELEMENT_NODE)
    && (i + 1 < |nodes| ==> k[n].kids != [] && k[n].kids[|k[n].kids| - 1] == nodes[i + 1])
    && (DoneRanked(g, k, nodes, i); Views(k, m, DoneKids(k, nodes, i)) == path[i].kids)
  }

  lemma DoneRanked(g: Graph, k: Shape, nodes: seq<Node>, i: nat)
    requires Agrees(g, k) && i < |nodes| && nodes[i] in g
    ensures nodes[i] in k && Ranked(k) && forall j | 0 <= j < |DoneKids(k, nodes, i)| :: DoneKids(k, nodes, i)[j] in k
  {
    hide Agrees, Ranked;
    ForestIsRanked(g, k);
    forall j | 0 <= j < |DoneKids(k, nodes, i)| ensures DoneKids(k, nodes, i)[j] in k {
      ChildAt(g, k, nodes[i], j);
    }
  }

  ghost predicate PathOk(g: Graph, k: Shape, m: Contents, nodes: seq<Node>, path: seq<Frame>) {
    && Agrees(g, k) && Markup(g, m) && |nodes| == |path| > 0
    && nodes[0] in g && g[nodes[0]].parent == null
    && forall i {:trigger FrameOk(g, k, m, nodes, path, i)} | 0 <= i < |nodes| :: nodes[i] in g && FrameOk(g, k, m, nodes, path, i)
  }

  lemma FrameAt(g: Graph, k: Shape, m: Contents, nodes: seq<Node>, path: seq<Frame>, i: nat)
    requires PathOk(g, k, m, nodes, path) && i < |nodes|
    ensures Agrees(g, k) && g.Keys == k.Keys == m.Keys && Ranked(k) && |nodes| == |path| && nodes[i] in g
    ensures FrameOk(g, k, m, nodes, path, i)
    ensures forall j | 0 <= j < |DoneKids(k, nodes, i)| :: DoneKids(k, nodes, i)[j] in k
  {
    hide Agrees, FrameOk, Ranked, DoneKids;
    assert nodes[i] in g && FrameOk(g, k, m, nodes, path, i);
    KeysAgree(g, k);
    DoneRanked(g, k, nodes, i);
  }

  /** Below every node of the path, or at its end, is the current node. */
  lemma {:induction false} CurrentIsBelow(g: Graph, k: Shape, m: Contents, nodes: seq<Node>, path: seq<Frame>, i: nat)
    requires PathOk(g, k, m, nodes, path) && i + 1 < |nodes|
    ensures Agrees(g, k) && nodes[i] in g && nodes[i] in k && k[nodes[i]].kids != []
    ensures IsOrBelow(g, k, nodes[i], |k[nodes[i]].kids| - 1, nodes[|nodes| - 1])
    ensures Below(g, k, nodes[i], nodes[|nodes| - 1])
    decreases |nodes| - i
  {
    hide Agrees, PathOk, Views, Ranked;
    FrameAt(g, k, m, nodes, path, i);
    var n, c := nodes[i], nodes[|nodes| - 1];
    ChildAt(g, k, n, |k[n].kids| - 1);
    UpFacts(g, k, nodes[i + 1]);
    if i + 2 < |nodes| {
      CurrentIsBelow(g, k, m, nodes, path, i + 1);
    }
    assert IsOrBelow(g, k, n, |k[n].kids| - 1, c);
  }

  /** The current node is not among the finished children, nor below them. */
  lemma DoneIsApart(g: Graph, k: Shape, m: Contents, nodes: seq<Node>, path: seq<Frame>, i: nat, j: nat)
    requires PathOk(g, k, m, nodes, path) && i < |nodes|
    ensures Agrees(g, k) && nodes[i] in k
    ensures j < |DoneKids(k, nodes, i)| ==>
              var x := DoneKids(k, nodes, i)[j]; x in g && x != nodes[|nodes| - 1] && !Below(g, k, x, nodes[|nodes| - 1])
  {
    hide Agrees, PathOk, Below, Ranked, Views;
    FrameAt(g, k, m, nodes, path, i);
    var n, c := nodes[i], nodes[|nodes| - 1];
    if j < |DoneKids(k, nodes, i)| {
      ChildAt(g, k, n, j);
      var x := k[n].kids[j];
      UpFacts(g, k, x);
      if i + 1 < |nodes| {
        CurrentIsBelow(g, k, m, nodes, path, i);
        if IsOrBelow(g, k, n, j, c) {
          SubtreesDisjoint(g, k, n, j, |k[n].kids| - 1, c);
        }
      } else if Below(g, k, x, c) {
        BelowIsLower(g, k, x, c);
      }
    }
  }

  // ----- what a change at the current node leaves alone -----

  /** Shape and contents agree except at `c`. */
  ghost predicate SameBut(g: Graph, k: Shape, m: Contents, k': Shape, m': Contents, c: Node) {
    && Agrees(g, k) && Ranked(k) && Ranked(k') && g.Keys == k.Keys == m.Keys && m'.Keys == k'.Keys
    && forall n {:trigger k'[n]} {:trigger m'[n]} | n in g && n != c :: n in k' && k'[n].kids == k[n].kids && m'[n] == m[n]
  }

  lemma {:induction false} ViewSame(g: Graph, k: Shape, m: Contents, k': Shape, m': Contents, c: Node, n: Node)
    requires SameBut(g, k, m, k', m', c) && n in g && n != c && !Below(g, k, n, c)
    ensures n in k' && View(k', m', n) == View(k, m, n)
    decreases k[n].rank, 0, 0
  {
    hide Agrees, Ranked, Below;
    assert k'[n].kids == k[n].kids && m'[n] == m[n];
    ViewFromSame(g, k, m, k', m', c, n, 0);
  }

  lemma {:induction false} ViewFromSame(g: Graph, k: Shape, m: Contents, k': Shape, m': Contents, c: Node, p: Node, i: nat)
    requires SameBut(g, k, m, k', m', c) && p in g && p != c && !Below(g, k, p, c) && p in k' && i <= |k[p].kids| == |k'[p].kids|
    ensures ViewFrom(k', m', p, i) == ViewFrom(k, m, p, i)
    decreases k[p].rank - 1, 1, |k[p].kids| - i
  {
    hide Agrees, Ranked, View;
    assert k'[p].kids == k[p].kids;
    if i < |k[p].kids| {
      ChildAt(g, k, p, i);
      var x := k[p].kids[i];
      UpFacts(g, k, x);
      KidIsLower(k, p, i);
      if x == c || Below(g, k, x, c) {
        assert IsOrBelow(g, k, p, i, c);
      }
      ViewSame(g, k, m, k', m', c, x);
      ViewFromSame(g, k, m, k', m', c, p, i + 1);
    }
  }

  lemma {:induction false} ViewsSame(g: Graph, k: Shape, m: Contents, k': Shape, m': Contents, c: Node, list: seq<Node>)
    requires SameBut(g, k, m, k', m', c)
    requires forall j | 0 <= j < |list| :: list[j] in g && list[j] != c && !Below(g, k, list[j], c)
    ensures forall j | 0 <= j < |list| :: list[j] in k && list[j] in k'
    ensures Views(k', m', list) == Views(k, m, list)
  {
    hide Agrees, Ranked, View, Below;
    if list != [] {
      ViewSame(g, k, m, k', m', c, list[0]);
      ViewsSame(g, k, m, k', m', c, list[1..]);
    }
  }

  /** The finished children on the path keep their value when only the current node changes. */
  lemma DoneSame(g: Graph, k: Shape, m: Contents, nodes: seq<Node>, path: seq<Frame>, k': Shape, m': Contents, i: nat)
    requires PathOk(g, k, m, nodes, path) && i < |nodes| && SameBut(g, k, m, k', m', nodes[|nodes| - 1])
    ensures nodes[i] in k && forall j | 0 <= j < |DoneKids(k, nodes, i)| :: DoneKids(k, nodes, i)[j] in k'
    ensures Views(k', m', DoneKids(k, nodes, i)) == path[i].kids
  {
    hide Agrees, Ranked, View, Below, PathOk, Views;
    FrameAt(g, k, m, nodes, path, i);
    var list := DoneKids(k, nodes, i);
    forall j | 0 <= j < |list| ensures list[j] in g && list[j] != nodes[|nodes| - 1] && !Below(g, k, list[j], nodes[|nodes| - 1]) {
      DoneIsApart(g, k, m, nodes, path, i, j);
    }
    ViewsSame(g, k, m, k', m', nodes[|nodes| - 1], list);
  }

  // ----- a new node -----

  const NO_LINKS := Links(null, null, null, null)

  ghost function WithNode(g: Graph, x: Node): Graph {
    g[x := NO_LINKS]
  }

  ghost function WithPlace(k: Shape, x: Node): Shape {
    k[x := Place([], 0, 0)]
  }

  lemma FreshNodeAgrees(g: Graph, k: Shape, x: Node)
    requires Agrees(g, k) && x !in g
    ensures Agrees(WithNode(g, x), WithPlace(k, x))
  {
    hide Agrees, UpOk, DownOk;
    var g1, k1 := WithNode(g, x), WithPlace(k, x);
    KeysAgree(g, k);
    assert g1.Keys == k1.Keys;
    forall n | n in g1 ensures UpOk(g1, k1, n) && DownOk(g1, k1, n) {
      FreshNodeAt(g, k, x, n);
    }
    AgreesIntro(g1, k1);
  }

  lemma FreshNodeAt(g: Graph, k: Shape, x: Node, n: Node)
    requires Agrees(g, k) && x !in g && (n in g || n == x)
    ensures WithNode(g, x).Keys == WithPlace(k, x).Keys
    ensures UpOk(WithNode(g, x), WithPlace(k, x), n) && DownOk(WithNode(g, x), WithPlace(k, x), n)
  {
    hide Agrees;
    KeysAgree(g, k);
    assert WithNode(g, x).Keys == WithPlace(k, x).Keys;
    if n != x {
      OkAt(g, k, n);
    }
  }

  predicate IsInner(c: Content) {
    c.nodeType in {eELEMENT_NODE, eTEXT_NODE, eCDATA_SECTION_NODE}
  }

  /** A node that is not linked yet leaves the path as it is. */
  lemma NodeAdded(g: Graph, k: Shape, m: Contents, nodes: seq<Node>, path: seq<Frame>, x: Node, c: Content)
    requires PathOk(g, k, m, nodes, path) && x !in g && IsInner(c)
    ensures PathOk(WithNode(g, x), WithPlace(k, x), m[x := c], nodes, path)
  {
    hide Agrees, PathOk, FrameOk, Markup, Ranked;
    var g1, k1, m1 := WithNode(g, x), WithPlace(k, x), m[x := c];
    PathParts(g, k, m, nodes, path);
    FreshNodeAgrees(g, k, x);
    ForestIsRanked(g1, k1);
    MarkupAdded(g, m, x, c);
    FrameAt(g, k, m, nodes, path, 0);
    forall i | 0 <= i < |nodes| ensures nodes[i] in g1 && FrameOk(g1, k1, m1, nodes, path, i) {
      FrameAdded(g, k, m, nodes, path, x, c, i);
    }
    PathIntro(g1, k1, m1, nodes, path);
  }

  lemma PathParts(g: Graph, k: Shape, m: Contents, nodes: seq<Node>, path: seq<Frame>)
    requires PathOk(g, k, m, nodes, path)
    ensures Agrees(g, k) && Markup(g, m) && g.Keys == k.Keys == m.Keys && Ranked(k)
    ensures |nodes| == |path| > 0 && nodes[0] in g && g[nodes[0]].parent == null && nodes[|nodes| - 1] in g
  {
    hide Agrees, FrameOk, Ranked;
    KeysAgree(g, k);
    ForestIsRanked(g, k);
    FrameAt(g, k, m, nodes, path, |nodes| - 1);
  }

  lemma PathIntro(g: Graph, k: Shape, m: Contents, nodes: seq<Node>, path: seq<Frame>)
    requires Agrees(g, k) && Markup(g, m) && |nodes| == |path| > 0 && m.Keys == g.Keys
    requires nodes[0] in g && g[nodes[0]].parent == null
    requires forall i | 0 <= i < |nodes| :: nodes[i] in g && FrameOk(g, k, m, nodes, path, i)
    ensures PathOk(g, k, m, nodes, path)
  {
    hide Agrees, FrameOk, Markup;
  }

  lemma MarkupAdded(g: Graph, m: Contents, x: Node, c: Content)
    requires Markup(g, m) && x !in g && IsInner(c)
    ensures Markup(WithNode(g, x), m[x := c]) && m[x := c].Keys == WithNode(g, x).Keys
  {
  }

  lemma FrameAdded(g: Graph, k: Shape, m: Contents, nodes: seq<Node>, path: seq<Frame>, x: Node, c: Content, i: nat)
    requires PathOk(g, k, m, nodes, path) && x !in g && i < |nodes|
    requires Agrees(WithNode(g, x), WithPlace(k, x)) && Ranked(WithPlace(k, x)) && m[x := c].Keys == WithNode(g, x).Keys
    ensures |nodes| == |path| && nodes[i] in WithNode(g, x)
    ensures FrameOk(WithNode(g, x), WithPlace(k, x), m[x := c], nodes, path, i)
  {
    hide Agrees, PathOk, Ranked, View, Views;
    var k1, m1 := WithPlace(k, x), m[x := c];
    FrameAt(g, k, m, nodes, path, i);
    KeysAgree(WithNode(g, x), k1);
    PlaceExtends(k, m, x, c);
    ViewsExtend(k, m, k1, m1, DoneKids(k, nodes, i));
    assert DoneKids(k1, nodes, i) == DoneKids(k, nodes, i);
    DoneRanked(WithNode(g, x), k1, nodes, i);
  }

  lemma PlaceExtends(k: Shape, m: Contents, x: Node, c: Content)
    requires Ranked(k) && m.Keys == k.Keys && x !in k && Ranked(WithPlace(k, x))
    ensures Extends(k, m, WithPlace(k, x), m[x := c])
  {
    hide Ranked;
  }

  // ----- appending it to the current node -----

  /** The links and the shape after `x`, new, has been appended to `c`. */
  ghost predicate IsAppended(g: Graph, k: Shape, m: Contents, c: Node, x: Node, u: Graph, k': Shape) {
    && Agrees(g, k) && g.Keys == k.Keys == m.Keys && c in g && x in g && x != c && Agrees(u, k') && u.Keys == k'.Keys == g.Keys
    && Ranked(k) && Ranked(k')
    && k[x].kids == [] && k'[x].kids == []
    && k'[c].kids == k[c].kids + [x]
    && (forall n {:trigger k'[n]} | n in g && n != c :: k'[n].kids == k[n].kids)
    && (forall n {:trigger u[n]} | n in g && n != x :: u[n].parent == g[n].parent)
  }

  lemma NewIsBelowNothing(g: Graph, k: Shape, x: Node, t: Node)
    requires Agrees(g, k) && x in g && x in k && k[x].kids == [] && g[x].parent == null
    ensures !Below(g, k, x, t) && !BelowFrom(g, k, x, t)
  {
    hide Agrees;
  }

  lemma AppendingNew(g: Graph, k: Shape, m: Contents, c: Node, x: Node)
    requires Agrees(g, k) && m.Keys == g.Keys && c in g && x in g && x != c && g[x].parent == null && x in k && k[x].kids == []
    ensures IsAppended(g, k, m, c, x, AppendResult(g, k, c, x), AppendShape(g, k, c, x))
  {
    hide Agrees, Below, AppendResult, AppendShape, Ranked, OtherKids;
    KeysAgree(g, k);
    NewIsBelowNothing(g, k, x, c);
    AppendChildCorrect(g, k, c, x);
    NewHasNoPlace(g, k, c, x);
    var u, k' := AppendResult(g, k, c, x), AppendShape(g, k, c, x);
    KeysAgree(u, k');
    ForestIsRanked(g, k);
    ForestIsRanked(u, k');
    forall n | n in g && n != x ensures u[n].parent == g[n].parent {
      ParentKept(g, k, c, x, n);
    }
  }

  lemma NewHasNoPlace(g: Graph, k: Shape, c: Node, x: Node)
    requires Agrees(g, k) && c in g && x in g && g[x].parent == null && c in k
    ensures OtherKids(g, k, c, x) == k[c].kids && AppendResult(g, k, c, x).Keys == g.Keys
  {
    hide Agrees;
  }

  lemma ParentKept(g: Graph, k: Shape, c: Node, x: Node, n: Node)
    requires Agrees(g, k) && c in g && x in g && g[x].parent == null && n in g && n != x
    ensures n in AppendResult(g, k, c, x) && AppendResult(g, k, c, x)[n].parent == g[n].parent
  {
    hide Agrees;
  }

  lemma AppendedSameBut(g: Graph, k: Shape, m: Contents, c: Node, x: Node, u: Graph, k': Shape)
    requires IsAppended(g, k, m, c, x, u, k')
    ensures SameBut(g, k, m, k', m, c)
  {
    hide Agrees, Ranked;
  }

  lemma MarkupAppended(g: Graph, k: Shape, m: Contents, c: Node, x: Node, u: Graph, k': Shape)
    requires IsAppended(g, k, m, c, x, u, k') && Markup(g, m) && m[x].nodeType != eDOCUMENT_NODE
    ensures Markup(u, m)
  {
    hide Agrees, Ranked;
  }

  /** The frames above the current one. */
  lemma UpperFrame(g: Graph, k: Shape, m: Contents, nodes: seq<Node>, path: seq<Frame>, x: Node, u: Graph, k': Shape,
                   nodes': seq<Node>, path': seq<Frame>, i: nat)
    requires PathOk(g, k, m, nodes, path) && i + 1 < |nodes|
    requires IsAppended(g, k, m, nodes[|nodes| - 1], x, u, k')
    requires |nodes'| == |path'| >= |nodes| && nodes'[..i + 2] == nodes[..i + 2] && path'[i] == path[i] && nodes[i] != nodes[|nodes| - 1]
    ensures nodes'[i] in u && FrameOk(u, k', m, nodes', path', i)
  {
    hide Agrees, PathOk, Ranked, View, Views, Below;
    FrameAt(g, k, m, nodes, path, i);
    assert nodes'[i] == nodes'[..i + 2][i] && nodes'[i + 1] == nodes'[..i + 2][i + 1];
    AppendedSameBut(g, k, m, nodes[|nodes| - 1], x, u, k');
    DoneSame(g, k, m, nodes, path, k', m, i);
    assert k'[nodes[i]].kids == k[nodes[i]].kids;
    assert DoneKids(k', nodes', i) == DoneKids(k, nodes, i);
    DoneRanked(u, k', nodes', i);
  }

  /** The nodes of the path are different. */
  lemma NotCurrent(g: Graph, k: Shape, m: Contents, nodes: seq<Node>, path: seq<Frame>, i: nat)
    requires PathOk(g, k, m, nodes, path) && i + 1 < |nodes|
    ensures nodes[i] != nodes[|nodes| - 1]
  {
    hide Agrees, PathOk, Below;
    CurrentIsBelow(g, k, m, nodes, path, i);
    if nodes[i] == nodes[|nodes| - 1] {
      BelowIsLower(g, k, nodes[i], nodes[i]);
    }
  }

  /** A new element under the current node becomes the current node. */
  lemma ElementOpened(g: Graph, k: Shape, m: Contents, nodes: seq<Node>, path: seq<Frame>, x: Node, u: Graph, k': Shape, name: string)
    requires PathOk(g, k, m, nodes, path) && x in m && m[x].nodeType == eELEMENT_NODE && m[x].name == name && m[x].attrs == []
    requires |nodes| > 0 && IsAppended(g, k, m, nodes[|nodes| - 1], x, u, k')
    ensures PathOk(u, k', m, nodes + [x], path + [Frame(name, [], [])])
  {
    hide Agrees, PathOk, Ranked, View, Views, Below, FrameOk, Markup, IsAppended;
    var nodes', path' := nodes + [x], path + [Frame(name, [], [])];
    PathParts(g, k, m, nodes, path);
    AppendedParts(g, k, m, nodes[|nodes| - 1], x, u, k');
    MarkupAppended(g, k, m, nodes[|nodes| - 1], x, u, k');
    RootIsNotNew(g, k, m, nodes, path, x, u, k');
    forall i | 0 <= i < |nodes'| ensures nodes'[i] in u && FrameOk(u, k', m, nodes', path', i) {
      if i + 1 < |nodes| {
        NotCurrent(g, k, m, nodes, path, i);
        UpperFrame(g, k, m, nodes, path, x, u, k', nodes', path', i);
      } else if i + 1 == |nodes| {
        CurrentGetsElement(g, k, m, nodes, path, x, u, k', name);
      } else {
        NewestFrame(u, k', m, nodes', path', x);
      }
    }
    PathIntro(u, k', m, nodes', path');
  }

  lemma AppendedParts(g: Graph, k: Shape, m: Contents, c: Node, x: Node, u: Graph, k': Shape)
    requires IsAppended(g, k, m, c, x, u, k')
    ensures Agrees(u, k') && u.Keys == k'.Keys == g.Keys == k.Keys == m.Keys && x in u && x in k' && k'[x].kids == []
    ensures c in g && x != c && k'[c].kids == k[c].kids + [x] && Ranked(k')
    ensures forall n {:trigger u[n]} | n in g && n != x :: u[n].parent == g[n].parent
  {
    hide Agrees, Ranked;
  }

  /** The document is not the new node, so it is still without parent. */
  lemma RootIsNotNew(g: Graph, k: Shape, m: Contents, nodes: seq<Node>, path: seq<Frame>, x: Node, u: Graph, k': Shape)
    requires PathOk(g, k, m, nodes, path) && |nodes| > 0 && IsAppended(g, k, m, nodes[|nodes| - 1], x, u, k')
    requires x in m && m[x].nodeType != eDOCUMENT_NODE
    ensures nodes[0] in u && u[nodes[0]].parent == null
  {
    hide Agrees, PathOk, Ranked, Views;
    PathParts(g, k, m, nodes, path);
    FrameAt(g, k, m, nodes, path, 0);
  }

  lemma CurrentGetsElement(g: Graph, k: Shape, m: Contents, nodes: seq<Node>, path: seq<Frame>, x: Node, u: Graph, k': Shape, name: string)
    requires PathOk(g, k, m, nodes, path) && |nodes| > 0 && IsAppended(g, k, m, nodes[|nodes| - 1], x, u, k')
    ensures |nodes| == |path| && nodes[|nodes| - 1] in u
    ensures FrameOk(u, k', m, nodes + [x], path + [Frame(name, [], [])], |nodes| - 1)
  {
    hide Agrees, PathOk, Ranked, View, Views, Below;
    var n := |nodes| - 1;
    FrameAt(g, k, m, nodes, path, n);
    AppendedParts(g, k, m, nodes[n], x, u, k');
    AppendedSameBut(g, k, m, nodes[n], x, u, k');
    DoneSame(g, k, m, nodes, path, k', m, n);
    assert DoneKids(k', nodes + [x], n) == DoneKids(k, nodes, n);
    DoneRanked(u, k', nodes + [x], n);
  }

  lemma NewestFrame(u: Graph, k': Shape, m: Contents, nodes: seq<Node>, path: seq<Frame>, x: Node)
    requires Agrees(u, k') && u.Keys == m.Keys && |nodes| == |path| > 1 && nodes[|nodes| - 1] == x && x in u && x in k' && k'[x].kids == []
    requires m[x].nodeType == eELEMENT_NODE && m[x].name == path[|path| - 1].nodeName && m[x].attrs == []
    requires path[|path| - 1] == Frame(m[x].name, [], [])
    ensures FrameOk(u, k', m, nodes, path, |nodes| - 1)
  {
    hide Agrees, Ranked;
    DoneRanked(u, k', nodes, |nodes| - 1);
  }

  /** A new text or CDATA node becomes the last child of the current node. */
  lemma LeafAppended(g: Graph, k: Shape, m: Contents, nodes: seq<Node>, path: seq<Frame>, x: Node, u: Graph, k': Shape, leaf: Tree)
    requires PathOk(g, k, m, nodes, path) && |nodes| > 0 && |path| > 0 && IsAppended(g, k, m, nodes[|nodes| - 1], x, u, k')
    requires x in m && IsLeaf(m[x], leaf)
    ensures var top := path[|path| - 1];
            PathOk(u, k', m, nodes, path[..|path| - 1] + [top.(kids := top.kids + [leaf])])
  {
    hide Agrees, PathOk, Ranked, View, Views, Below, FrameOk, Markup, IsAppended;
    var top := path[|path| - 1];
    var path' := path[..|path| - 1] + [top.(kids := top.kids + [leaf])];
    PathParts(g, k, m, nodes, path);
    AppendedParts(g, k, m, nodes[|nodes| - 1], x, u, k');
    MarkupAppended(g, k, m, nodes[|nodes| - 1], x, u, k');
    RootIsNotNew(g, k, m, nodes, path, x, u, k');
    forall i | 0 <= i < |nodes| ensures nodes[i] in u && FrameOk(u, k', m, nodes, path', i) {
      if i + 1 < |nodes| {
        NotCurrent(g, k, m, nodes, path, i);
        UpperFrame(g, k, m, nodes, path, x, u, k', nodes, path', i);
      } else {
        CurrentGetsLeaf(g, k, m, nodes, path, x, u, k', leaf, path');
      }
    }
    PathIntro(u, k', m, nodes, path');
  }

  predicate IsLeaf(c: Content, leaf: Tree) {
    match leaf
    case TextNode(value) => c.nodeType == eTEXT_NODE && c.value == value
    case CDataNode(value) => c.nodeType == eCDATA_SECTION_NODE && c.value == value
    case _ => false
  }

  lemma CurrentGetsLeaf(g: Graph, k: Shape, m: Contents, nodes: seq<Node>, path: seq<Frame>, x: Node, u: Graph, k': Shape,
                        leaf: Tree, path': seq<Frame>)
    requires PathOk(g, k, m, nodes, path) && |nodes| > 0 && |path| > 0 && IsAppended(g, k, m, nodes[|nodes| - 1], x, u, k')
    requires x in m && IsLeaf(m[x], leaf) && |path'| == |path|
    requires path'[|path| - 1] == path[|path| - 1].(kids := path[|path| - 1].kids + [leaf])
    ensures |nodes| == |path'| && nodes[|nodes| - 1] in u
    ensures FrameOk(u, k', m, nodes, path', |nodes| - 1)
  {
    hide Agrees, PathOk, Ranked, View, Views, Below;
    var n := |nodes| - 1;
    FrameAt(g, k, m, nodes, path, n);
    AppendedParts(g, k, m, nodes[n], x, u, k');
    AppendedSameBut(g, k, m, nodes[n], x, u, k');
    DoneSame(g, k, m, nodes, path, k', m, n);
    DoneRanked(u, k', nodes, n);
    ViewsSnoc(k', m, k[nodes[n]].kids, x);
    LeafIsSeen(k', m, x, leaf);
  }

  lemma LeafIsSeen(k: Shape, m: Contents, x: Node, leaf: Tree)
    requires Ranked(k) && x in k && m.Keys == k.Keys && IsLeaf(m[x], leaf)
    ensures View(k, m, x) == leaf
  {
    hide Ranked;
  }

  lemma {:induction false} ViewsSnoc(k: Shape, m: Contents, list: seq<Node>, x: Node)
    requires Ranked(k) && m.Keys == k.Keys && x in k && forall j | 0 <= j < |list| :: list[j] in k
    ensures forall j | 0 <= j < |list + [x]| :: (list + [x])[j] in k
    ensures Views(k, m, list + [x]) == Views(k, m, list) + [View(k, m, x)]
  {
    hide Ranked, View;
    if list == [] {
      assert list + [x] == [x];
      OneView(k, m, x);
    } else {
      assert (list + [x])[1..] == list[1..] + [x];
      ViewsSnoc(k, m, list[1..], x);
    }
  }

  // ----- an attribute for the current node -----

  lemma AttributeAdded(g: Graph, k: Shape, m: Contents, nodes: seq<Node>, path: seq<Frame>, c: Content)
    requires PathOk(g, k, m, nodes, path) && |nodes| > 0 && |path| > 0 && nodes[|nodes| - 1] in m
    requires c == m[nodes[|nodes| - 1]].(attrs := c.attrs)
    ensures var top := path[|path| - 1];
            PathOk(g, k, m[nodes[|nodes| - 1] := c], nodes, path[..|path| - 1] + [top.(attrs := c.attrs)])
  {
    hide Agrees, PathOk, Ranked, View, Views, Below, FrameOk;
    var n := |nodes| - 1;
    var top := path[|path| - 1];
    var m', path' := m[nodes[n] := c], path[..|path| - 1] + [top.(attrs := c.attrs)];
    PathParts(g, k, m, nodes, path);
    assert Markup(g, m');
    forall i | 0 <= i < |nodes| ensures nodes[i] in g && FrameOk(g, k, m', nodes, path', i) {
      if i < n {
        NotCurrent(g, k, m, nodes, path, i);
      }
      FrameOtherContent(g, k, m, nodes, path, c, path', i);
    }
    PathIntro(g, k, m', nodes, path');
  }

  lemma FrameOtherContent(g: Graph, k: Shape, m: Contents, nodes: seq<Node>, path: seq<Frame>, c: Content, path': seq<Frame>, i: nat)
    requires PathOk(g, k, m, nodes, path) && i < |nodes| && nodes[|nodes| - 1] in m && |path'| == |path| == |nodes|
    requires c == m[nodes[|nodes| - 1]].(attrs := c.attrs)
    requires path'[i] == if i + 1 == |nodes| then path[i].(attrs := c.attrs) else path[i]
    requires i + 1 < |nodes| ==> nodes[i] != nodes[|nodes| - 1]
    ensures var m' := m[nodes[|nodes| - 1] := c];
            m'.Keys == g.Keys && Agrees(g, k) && nodes[i] in g && FrameOk(g, k, m', nodes, path', i)
  {
    hide Agrees, PathOk, Ranked, View, Views, Below;
    var m' := m[nodes[|nodes| - 1] := c];
    FrameAt(g, k, m, nodes, path, i);
    assert m'.Keys == g.Keys;
    assert SameBut(g, k, m, k, m', nodes[|nodes| - 1]);
    DoneSame(g, k, m, nodes, path, k, m', i);
  }

  // ----- leaving the current node -----

  /** The current node is finished: the path ends at its parent. */
  lemma CurrentLeft(g: Graph, k: Shape, m: Contents, nodes: seq<Node>, path: seq<Frame>)
    requires PathOk(g, k, m, nodes, path) && |path| >= 2
    ensures |nodes| == |path| && nodes[|nodes| - 1] in g && g[nodes[|nodes| - 1]].parent == nodes[|nodes| - 2]
    ensures var done, parent := path[|path| - 1], path[|path| - 2];
            PathOk(g, k, m, nodes[..|nodes| - 1],
                   path[..|path| - 2] + [parent.(kids := parent.kids + [Element(done.nodeName, done.attrs, done.kids)])])
  {
    hide Agrees, PathOk, Ranked, View, Views, Below, FrameOk, Markup;
    var n := |path| - 1;
    var done, parent := path[n], path[n - 1];
    PathParts(g, k, m, nodes, path);
    var nodes', path' := nodes[..n], path[..n - 1] + [parent.(kids := parent.kids + [Element(done.nodeName, done.attrs, done.kids)])];
    ParentOnPath(g, k, m, nodes, path, n - 1);
    forall i | 0 <= i < |nodes'| ensures nodes'[i] in g && FrameOk(g, k, m, nodes', path', i) {
      if i + 1 < n {
        FrameShorter(g, k, m, nodes, path, path', i);
      } else {
        ParentGetsElement(g, k, m, nodes, path, path');
      }
    }
    PathIntro(g, k, m, nodes', path');
  }

  lemma ParentOnPath(g: Graph, k: Shape, m: Contents, nodes: seq<Node>, path: seq<Frame>, i: nat)
    requires PathOk(g, k, m, nodes, path) && i + 1 < |nodes|
    ensures nodes[i + 1] in g && g[nodes[i + 1]].parent == nodes[i]
  {
    hide Agrees, PathOk, Ranked, Views;
    FrameAt(g, k, m, nodes, path, i);
    ChildAt(g, k, nodes[i], |k[nodes[i]].kids| - 1);
  }

  lemma FrameShorter(g: Graph, k: Shape, m: Contents, nodes: seq<Node>, path: seq<Frame>, path': seq<Frame>, i: nat)
    requires PathOk(g, k, m, nodes, path) && |nodes| == |path| == |path'| + 1 && i + 1 < |path'| && path'[i] == path[i]
    ensures Agrees(g, k) && m.Keys == g.Keys && nodes[..|path'|][i] in g && FrameOk(g, k, m, nodes[..|path'|], path', i)
  {
    hide Agrees, PathOk, Ranked, Views;
    FrameAt(g, k, m, nodes, path, i);
    var nodes' := nodes[..|path'|];
    assert nodes'[i] == nodes[i] && nodes'[i + 1] == nodes[i + 1];
    assert DoneKids(k, nodes', i) == DoneKids(k, nodes, i);
  }

  lemma ParentGetsElement(g: Graph, k: Shape, m: Contents, nodes: seq<Node>, path: seq<Frame>, path': seq<Frame>)
    requires PathOk(g, k, m, nodes, path) && |nodes| == |path| == |path'| + 1 >= 2
    requires var done, parent := path[|path| - 1], path[|path| - 2];
             path'[|path'| - 1] == parent.(kids := parent.kids + [Element(done.nodeName, done.attrs, done.kids)])
    ensures Agrees(g, k) && m.Keys == g.Keys && nodes[..|path'|][|path'| - 1] in g
    ensures FrameOk(g, k, m, nodes[..|path'|], path', |path'| - 1)
  {
    hide Agrees, PathOk, Ranked, Views, View;
    var n := |path'| - 1;
    FrameAt(g, k, m, nodes, path, n);
    FrameAt(g, k, m, nodes, path, n + 1);
    var nodes' := nodes[..n + 1];
    assert nodes'[n] == nodes[n];
    var x := nodes[n + 1];
    var kids := k[nodes[n]].kids;
    assert kids == DoneKids(k, nodes, n) + [x];
    ViewsSnoc(k, m, DoneKids(k, nodes, n), x);
    ElementIsSeen(k, m, x);
    DoneRanked(g, k, nodes', n);
  }

  lemma ElementIsSeen(k: Shape, m: Contents, x: Node)
    requires Ranked(k) && x in k && m.Keys == k.Keys && m[x].nodeType == eELEMENT_NODE
    ensures forall j | 0 <= j < |k[x].kids| :: k[x].kids[j] in k
    ensures View(k, m, x) == Element(m[x].name, m[x].attrs, Views(k, m, k[x].kids))
  {
    hide Ranked, Views;
    ViewsAreKids(k, m, x, 0);
    assert k[x].kids[0..] == k[x].kids;
  }

  // ----- building -----

  lemma NodeJoins(S: set<Node>, x: Node)
    requires x !in S && LinksOf(x) == NO_LINKS
    ensures GraphOf(S + {x}) == WithNode(GraphOf(S), x) && ContentsOf(S + {x}) == ContentsOf(S)[x := ContentOf(x)]
    ensures GraphOf(S).Keys == S && ContentsOf(S).Keys == S
  {
  }

  /** ixmlNode_appendChild, and that it leaves the contents of all nodes. */
  method AppendKeepingContents(p: Node, x: Node, ghost S: set<Node>, ghost k: Shape) returns (ok: bool)
    requires Agrees(GraphOf(S), k) && p in S && x in S && !BelowFrom(GraphOf(S), k, x, p)
    requires x.ownerDocument == p.ownerDocument && p != x
    modifies S`parentNode, S`firstChild, S`prevSibling, S`nextSibling, S`ownerDocument
    ensures ok == Allows(p.nodeType, x.nodeType)
    ensures ok ==> GraphOf(S) == AppendResult(old(GraphOf(S)), k, p, x)
    ensures !ok ==> GraphOf(S) == old(GraphOf(S))
    ensures ContentsOf(S) == old(ContentsOf(S))
    ensures forall n | n in S :: n.ownerDocument == old(n.ownerDocument)
  {
    hide Agrees, BelowFrom, AppendResult, GraphOf, Allows;
    var rc := AppendChild(p, x, S, k);
    ok := rc == IXML_SUCCESS;
    assert p.ownerDocument == old(p.ownerDocument);
  }

  class DomBuilder {
    var document: Node
    var currentNodePtr: Node
    ghost var S: set<Node>
    ghost var k: Shape
    ghost var nodes: seq<Node>

    /** The nodes hold what `path` says: the document first, currentNodePtr last. */
    ghost predicate Holds(path: seq<Frame>)
      reads this, S
    {
      && PathOk(GraphOf(S), k, ContentsOf(S), nodes, path)
      && |nodes| > 0 && document == nodes[0] && currentNodePtr == nodes[|nodes| - 1]
      && (forall n | n in S :: n.ownerDocument == document)
    }

    /** ixmlDocument_createDocumentEx: the document is its own owner. */
    constructor ()
      ensures Holds([Frame(DOCUMENT_NAME, [], [])]) && fresh(S)
    {
      var d := new Node(eDOCUMENT_NODE, DOCUMENT_NAME, "", []);
      d.ownerDocument := d;
      document, currentNodePtr := d, d;
      S, k, nodes := {d}, map[d := Place([], 0, 0)], [d];
      new;
      EmptyDocument(document);
    }

    /** A new node under the current one. */
    method AppendNew(x: Node, ghost path: seq<Frame>) returns (ok: bool)
      requires Holds(path) && x !in S && LinksOf(x) == NO_LINKS && x.ownerDocument == document && IsInner(ContentOf(x))
      modifies this`S, this`k, S`parentNode, S`firstChild, S`prevSibling, S`nextSibling, S`ownerDocument,
               x`parentNode, x`firstChild, x`prevSibling, x`nextSibling, x`ownerDocument
      ensures ok == Allows(currentNodePtr.nodeType, x.nodeType)
      ensures ok ==>
                var g1, k1, m1 := WithNode(old(GraphOf(S)), x), WithPlace(old(k), x), old(ContentsOf(S))[x := old(ContentOf(x))];
                && S == old(S) + {x}
                && PathOk(g1, k1, m1, nodes, path) && ContentsOf(S) == m1
                && IsAppended(g1, k1, m1, currentNodePtr, x, GraphOf(S), k)
      ensures ok ==> forall n | n in S :: n.ownerDocument == document
    {
      hide Agrees, PathOk, BelowFrom, AppendResult, AppendShape, GraphOf, ContentsOf, IsAppended, Allows, WithNode, WithPlace, Markup;
      ghost var g, m := GraphOf(S), ContentsOf(S);
      NodeJoins(S, x);
      NodeAdded(g, k, m, nodes, path, x, ContentOf(x));
      PathParts(g, k, m, nodes, path);
      NewNodeFacts(g, k, m, nodes, path, x, ContentOf(x));
      ghost var g1, k1, m1 := WithNode(g, x), WithPlace(k, x), m[x := ContentOf(x)];
      AppendingNew(g1, k1, m1, currentNodePtr, x);
      ok := AppendKeepingContents(currentNodePtr, x, S + {x}, k1);
      S := S + {x};
      k := AppendShape(g1, k1, currentNodePtr, x);
    }

    /** The part of Parser_processElementName that changes the document. */
    method OpenElement(name: string, ghost path: seq<Frame>)
      requires Holds(path)
      modifies this, S
      ensures Holds(path + [Frame(name, [], [])])
      ensures fresh(S - old(S)) && document == old(document)
    {
      hide Agrees, PathOk, GraphOf, ContentsOf, IsAppended, WithNode, WithPlace;
      ElementAllowed(path);
      var newElement := new Node(eELEMENT_NODE, name, "", []);
      newElement.ownerDocument := document;
      assert LinksOf(newElement) == NO_LINKS;
      ghost var g1, k1, m1 := WithNode(GraphOf(S), newElement), WithPlace(k, newElement), ContentsOf(S)[newElement := ContentOf(newElement)];
      var ok := AppendNew(newElement, path);
      ElementOpened(g1, k1, m1, nodes, path, newElement, GraphOf(S), k, name);
      nodes := nodes + [newElement];
      currentNodePtr := newElement;
    }

    /** Text or CDATA under the current node; only the document refuses it. */
    method AppendLeaf(leaf: Tree, ghost path: seq<Frame>) returns (ok: bool)
      requires Holds(path) && !leaf.Element?
      modifies this, S
      ensures path != [] && ok == (|path| > 1)
      ensures ok ==> var top := path[|path| - 1]; Holds(path[..|path| - 1] + [top.(kids := top.kids + [leaf])])
      ensures ok ==> fresh(S - old(S)) && document == old(document)
    {
      hide Agrees, PathOk, GraphOf, ContentsOf, IsAppended, WithNode, WithPlace;
      LeafAllowed(path);
      var x: Node;
      match leaf {
        case TextNode(value) => x := new Node(eTEXT_NODE, "#text", value, []);
        case CDataNode(value) => x := new Node(eCDATA_SECTION_NODE, "#cdata-section", value, []);
      }
      x.ownerDocument := document;
      assert LinksOf(x) == NO_LINKS;
      ghost var g1, k1, m1 := WithNode(GraphOf(S), x), WithPlace(k, x), ContentsOf(S)[x := ContentOf(x)];
      ok := AppendNew(x, path);
      if ok {
        LeafAppended(g1, k1, m1, nodes, path, x, GraphOf(S), k, leaf);
      }
    }

    /** isDuplicateAttribute */
    method IsDuplicateAttribute(name: string, ghost path: seq<Frame>) returns (found: bool)
      requires Holds(path)
      ensures path != [] && found == HasAttr(path[|path| - 1].attrs, name)
    {
      hide Agrees, PathOk;
      CurrentContent(path);
      var attrs := currentNodePtr.attributes;
      for i := 0 to |attrs|
        invariant forall j | 0 <= j < i :: attrs[j].name != name
      {
        if attrs[i].name == name {
          assert attrs[i] in attrs;
          return true;
        }
      }
      found := false;
    }

    /** A new last attribute of the current node. */
    method AddAttribute(name: string, value: string, ghost path: seq<Frame>)
      requires Holds(path) && path != []
      modifies S`attributes
      ensures var top := path[|path| - 1]; Holds(path[..|path| - 1] + [top.(attrs := top.attrs + [Attr(name, value)])])
    {
      hide Agrees, PathOk;
      CurrentContent(path);
      ghost var g, m := GraphOf(S), ContentsOf(S);
      ghost var c := ContentOf(currentNodePtr).(attrs := currentNodePtr.attributes + [Attr(name, value)]);
      currentNodePtr.attributes := currentNodePtr.attributes + [Attr(name, value)];
      AttributeAdded(g, k, m, nodes, path, c);
      assert GraphOf(S) == g;
      assert ContentsOf(S) == m[currentNodePtr := c];
    }

    /** The second check of Parser_eTagVerification: the current node must have the name, and its parent becomes current. */
    method Leave(name: string, ghost path: seq<Frame>) returns (ok: bool)
      requires Holds(path)
      modifies this`currentNodePtr, this`nodes
      ensures path != [] && ok == (path[|path| - 1].nodeName == name && |path| >= 2)
      ensures ok ==> var done, parent := path[|path| - 1], path[|path| - 2];
                     Holds(path[..|path| - 2] + [parent.(kids := parent.kids + [Element(done.nodeName, done.attrs, done.kids)])])
    {
      hide Agrees, PathOk, GraphOf, ContentsOf;
      CurrentContent(path);
      if currentNodePtr.nodeName != name || currentNodePtr.parentNode == null {
        return false;
      }
      CurrentLeft(GraphOf(S), k, ContentsOf(S), nodes, path);
      currentNodePtr := currentNodePtr.parentNode;
      nodes := nodes[..|nodes| - 1];
      ok := true;
    }

    lemma CurrentContent(path: seq<Frame>)
      requires Holds(path)
      ensures |path| == |nodes| > 0 && currentNodePtr in S && document in S
      ensures currentNodePtr.nodeName == path[|path| - 1].nodeName && currentNodePtr.attributes == path[|path| - 1].attrs
      ensures currentNodePtr.parentNode == null <==> |path| == 1
      ensures currentNodePtr.nodeType == if |path| == 1 then eDOCUMENT_NODE else eELEMENT_NODE
      ensures |path| > 1 ==> currentNodePtr.parentNode == nodes[|nodes| - 2]
    {
      hide Agrees, PathOk, Views, Ranked;
      var g, m := GraphOf(S), ContentsOf(S);
      PathParts(g, k, m, nodes, path);
      FrameAt(g, k, m, nodes, path, |nodes| - 1);
      if |path| > 1 {
        ParentOnPath(g, k, m, nodes, path, |nodes| - 2);
      }
    }

    lemma ElementAllowed(path: seq<Frame>)
      requires Holds(path)
      ensures Allows(currentNodePtr.nodeType, eELEMENT_NODE)
    {
      hide Agrees, PathOk;
      CurrentContent(path);
    }

    lemma LeafAllowed(path: seq<Frame>)
      requires Holds(path)
      ensures path != []
      ensures Allows(currentNodePtr.nodeType, eTEXT_NODE) == Allows(currentNodePtr.nodeType, eCDATA_SECTION_NODE) == (|path| > 1)
    {
      hide Agrees, PathOk;
      CurrentContent(path);
    }
  }

  lemma NewNodeFacts(g: Graph, k: Shape, m: Contents, nodes: seq<Node>, path: seq<Frame>, x: Node, c: Content)
    requires PathOk(g, k, m, nodes, path) && x !in g && |nodes| > 0
    ensures var g1, k1, m1 := WithNode(g, x), WithPlace(k, x), m[x := c]; var p := nodes[|nodes| - 1];
            && Agrees(g1, k1) && m1.Keys == g1.Keys && p in g1 && x in g1 && x != p && g1[x].parent == null && x in k1 && k1[x].kids == []
            && !BelowFrom(g1, k1, x, p)
  {
    hide Agrees, PathOk, BelowFrom;
    PathParts(g, k, m, nodes, path);
    FreshNodeAgrees(g, k, x);
    NewIsBelowNothing(WithNode(g, x), WithPlace(k, x), x, nodes[|nodes| - 1]);
  }

  lemma EmptyDocument(d: Node)
    requires LinksOf(d) == NO_LINKS && ContentOf(d) == Content(eDOCUMENT_NODE, DOCUMENT_NAME, "", [])
    ensures PathOk(GraphOf({d}), map[d := Place([], 0, 0)], ContentsOf({d}), [d], [Frame(DOCUMENT_NAME, [], [])])
  {
    var g, k, m := GraphOf({d}), map[d := Place([], 0, 0)], ContentsOf({d});
    assert Agrees(g, k);
    DoneRanked(g, k, [d], 0);
    hide Agrees, Ranked;
    assert FrameOk(g, k, m, [d], [Frame(DOCUMENT_NAME, [], [])], 0);
  }
}
