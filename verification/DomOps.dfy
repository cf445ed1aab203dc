/**
 The tree operations of node.c on nodes in memory.  `S` is the set of nodes in
 use and `k` the shape of the forest they form; both exist for the proof only.
 */
module DomOps {
  import opened Dom

  datatype ReturnCode =
    | IXML_SUCCESS | IXML_INVALID_PARAMETER | IXML_HIERARCHY_REQUEST_ERR | IXML_WRONG_DOCUMENT_ERR | IXML_NOT_FOUND_ERR
    | ASSERTION_FAILED

  ghost predicate InUse(n: Node?, S: set<Node>) {
    n != null ==> n in S
  }

  // ----- ixmlNode_isAncestor -----

  /** `t` lies strictly below `a` or below a later sibling of `a`. */
  ghost predicate BelowFrom(g: Graph, k: Shape, a: Node, t: Node)
    requires Agrees(g, k) && a in g
  {
    Below(g, k, a, t) || BelowLaterSibling(g, k, a, t)
  }

  ghost predicate BelowLaterSibling(g: Graph, k: Shape, a: Node, t: Node)
    requires Agrees(g, k) && a in g
  {
    g[a].parent != null && (
      UpFacts(g, k, a);
      exists j | k[a].pos < j < |k[g[a].parent].kids| :: BelowKid(g, k, g[a].parent, j, t))
  }

  ghost predicate BelowKid(g: Graph, k: Shape, p: Node, j: nat, t: Node)
    requires Agrees(g, k) && p in g && p in k && j < |k[p].kids|
  {
    ChildAt(g, k, p, j);
    Below(g, k, k[p].kids[j], t)
  }

  /** The parent of `t` is `a` exactly when `t` is a child of `a`. */
  lemma ChildIffParent(g: Graph, k: Shape, a: Node, t: Node)
    requires Agrees(g, k) && a in g && t in g && g[t].parent == a
    ensures Below(g, k, a, t)
  {
    hide Agrees;
    UpFacts(g, k, t);
    assert IsOrBelow(g, k, a, k[t].pos, t);
  }

  /** What is below a node is a child of it or is below one of its children. */
  lemma BelowViaKids(g: Graph, k: Shape, a: Node, t: Node)
    requires Agrees(g, k) && a in g && t in g && g[t].parent != a
    ensures a in k
    ensures k[a].kids == [] ==> !Below(g, k, a, t)
    ensures k[a].kids != [] ==>
              k[a].kids[0] in g && (Below(g, k, a, t) <==> BelowFrom(g, k, k[a].kids[0], t))
  {
    hide Agrees;
    OkAt(g, k, a);
    if k[a].kids != [] {
      var x := k[a].kids[0];
      ChildAt(g, k, a, 0);
      UpFacts(g, k, x);
      if Below(g, k, a, t) {
        var i := BelowWitness(g, k, a, t);
        ChildAt(g, k, a, i);
        if i > 0 {
          assert BelowKid(g, k, a, i, t);
        }
      }
      if Below(g, k, x, t) {
        assert IsOrBelow(g, k, a, 0, t);
      } else if BelowLaterSibling(g, k, x, t) {
        var j :| k[x].pos < j < |k[a].kids| && BelowKid(g, k, a, j, t);
        ChildAt(g, k, a, j);
        assert IsOrBelow(g, k, a, j, t);
      }
    }
  }

  lemma BelowViaNext(g: Graph, k: Shape, a: Node, t: Node)
    requires Agrees(g, k) && a in g
    ensures g[a].next == null ==> !BelowLaterSibling(g, k, a, t)
    ensures g[a].next != null ==> g[a].next in g && (BelowLaterSibling(g, k, a, t) <==> BelowFrom(g, k, g[a].next, t))
  {
    hide Agrees;
    OkAt(g, k, a);
    if g[a].parent != null {
      var p := g[a].parent;
      UpFacts(g, k, a);
      if g[a].next != null {
        ChildAt(g, k, p, k[a].pos + 1);
        if Below(g, k, g[a].next, t) {
          assert BelowKid(g, k, p, k[a].pos + 1, t);
        }
        if BelowLaterSibling(g, k, a, t) {
          var j :| k[a].pos < j < |k[p].kids| && BelowKid(g, k, p, j, t);
          if j > k[a].pos + 1 {
            assert BelowLaterSibling(g, k, g[a].next, t);
          }
        }
        if BelowLaterSibling(g, k, g[a].next, t) {
          var j :| k[g[a].next].pos < j < |k[p].kids| && BelowKid(g, k, p, j, t);
          assert BelowLaterSibling(g, k, a, t);
        }
      }
    }
  }

  /** Where the recursion of isAncestor stands: first the height of the parent, then the siblings left. */
  ghost function WalkHeight(g: Graph, k: Shape, a: Node): nat
    requires Agrees(g, k) && a in g
  {
    if g[a].parent == null then k[a].rank + 1 else UpFacts(g, k, a); k[g[a].parent].rank
  }

  ghost function WalkLeft(g: Graph, k: Shape, a: Node): int
    requires Agrees(g, k) && a in g
  {
    if g[a].parent == null then 0 else UpFacts(g, k, a); |k[g[a].parent].kids| - k[a].pos
  }

  lemma WalkDown(g: Graph, k: Shape, a: Node)
    requires Agrees(g, k) && a in g
    ensures WalkLeft(g, k, a) >= 0
    ensures g[a].first != null ==> g[a].first in g && WalkHeight(g, k, g[a].first) < WalkHeight(g, k, a)
    ensures g[a].next != null ==> g[a].next in g && WalkHeight(g, k, g[a].next) == WalkHeight(g, k, a)
                                  && 0 <= WalkLeft(g, k, g[a].next) < WalkLeft(g, k, a)
  {
    hide Agrees, DownOk, UpOk;
    FirstIsKid(g, k, a);
    if g[a].parent != null {
      UpFacts(g, k, a);
      if g[a].next != null {
        ChildAt(g, k, g[a].parent, k[a].pos + 1);
      }
    } else {
      NoParentNoSibling(g, k, a);
    }
  }

  lemma NoParentNoSibling(g: Graph, k: Shape, a: Node)
    requires Agrees(g, k) && a in g && g[a].parent == null
    ensures g[a].next == null && g[a].prev == null
  {
    hide Agrees;
    OkAt(g, k, a);
  }

  lemma FirstIsKid(g: Graph, k: Shape, a: Node)
    requires Agrees(g, k) && a in g
    ensures a in k && g[a].first == if k[a].kids == [] then null else k[a].kids[0]
    ensures g[a].first != null ==> g[a].first in g && g[g[a].first].parent == a && g[a].first in k && k[g[a].first].pos == 0
  {
    hide Agrees;
    OkAt(g, k, a);
  }

  /**
   ixmlNode_isAncestor.  It also looks below the later siblings of the node it
   is given, so it answers more than whether that node is an ancestor.
   */
  method IsAncestor(ancestorNode: Node?, toFind: Node?, ghost S: set<Node>, ghost k: Shape) returns (found: bool)
    requires Agrees(GraphOf(S), k) && InUse(ancestorNode, S) && InUse(toFind, S)
    ensures found <==> ancestorNode != null && toFind != null && BelowFrom(GraphOf(S), k, ancestorNode, toFind)
    decreases if ancestorNode == null then 0 else 1,
              if ancestorNode == null then 0 else WalkHeight(GraphOf(S), k, ancestorNode),
              if ancestorNode == null then 0 else WalkLeft(GraphOf(S), k, ancestorNode)
  {
    hide Agrees, Below, BelowLaterSibling, WalkHeight, WalkLeft;
    found := false;
    if ancestorNode != null && toFind != null {
      ghost var g := GraphOf(S);
      FirstIsKid(g, k, ancestorNode);
      if toFind.parentNode == ancestorNode {
        ChildIffParent(g, k, ancestorNode, toFind);
        return true;
      }
      BelowViaKids(g, k, ancestorNode, toFind);
      BelowViaNext(g, k, ancestorNode, toFind);
      WalkDown(g, k, ancestorNode);
      found := IsAncestor(ancestorNode.firstChild, toFind, S, k);
      if !found {
        found := IsAncestor(ancestorNode.nextSibling, toFind, S, k);
      }
    }
  }

  /** What the check finds besides the descendants: those of every later sibling. */
  lemma AncestorOfSibling(g: Graph, k: Shape, a: Node, x: Node, t: Node)
    requires Agrees(g, k) && a in g && x in g && t in g && g[a].parent != null && g[x].parent == g[a].parent
    requires a in k && x in k && k[a].pos < k[x].pos && Below(g, k, x, t)
    ensures BelowFrom(g, k, a, t)
  {
    hide Agrees, UpOk, DownOk, Below;
    UpFacts(g, k, a);
    UpFacts(g, k, x);
    assert BelowKid(g, k, g[a].parent, k[x].pos, t);
  }

  // ----- the other checks -----

  /** ixmlNode_isParent on two nodes. */
  method IsParent(nodeptr: Node, toFind: Node) returns (found: bool)
    ensures found == (toFind.parentNode == nodeptr)
  {
    found := toFind.parentNode == nodeptr;
  }

  /** ixmlNode_allowChildren, on the types of the two nodes. */
  predicate Allows(parent: NodeType, child: NodeType) {
    match parent
    case eATTRIBUTE_NODE => false
    case eTEXT_NODE => false
    case eCDATA_SECTION_NODE => false
    case eELEMENT_NODE => child != eATTRIBUTE_NODE && child != eDOCUMENT_NODE
    case eDOCUMENT_NODE => child == eELEMENT_NODE
    case _ => true
  }

  // ----- ixmlNode_removeChild -----

  method RemoveChild(nodeptr: Node?, oldChild: Node?, ghost S: set<Node>)
    returns (rc: ReturnCode, returnNode: Node?)
    requires InUse(nodeptr, S) && InUse(oldChild, S)
    requires oldChild != null ==> InUse(oldChild.prevSibling, S) && InUse(oldChild.nextSibling, S)
    modifies S`parentNode, S`firstChild, S`prevSibling, S`nextSibling
    ensures rc == if nodeptr == null || oldChild == null then IXML_INVALID_PARAMETER
                  else if old(oldChild.parentNode) != nodeptr then IXML_NOT_FOUND_ERR
                  else IXML_SUCCESS
    ensures rc == IXML_SUCCESS ==> returnNode == oldChild && GraphOf(S) == Unlinked(old(GraphOf(S)), nodeptr, oldChild)
    ensures rc != IXML_SUCCESS ==> returnNode == null && GraphOf(S) == old(GraphOf(S))
  {
    returnNode := null;
    if nodeptr == null || oldChild == null {
      return IXML_INVALID_PARAMETER, returnNode;
    }
    var isParent := IsParent(nodeptr, oldChild);
    if !isParent {
      return IXML_NOT_FOUND_ERR, returnNode;
    }
    UnlinkLinks(nodeptr, oldChild, S);
    rc, returnNode := IXML_SUCCESS, oldChild;
  }

  // The assignments to one field of one node, seen on the graph.

  method AssignNext(x: Node, v: Node?, ghost S: set<Node>)
    requires x in S
    modifies x`nextSibling
    ensures GraphOf(S) == SetNext(old(GraphOf(S)), x, v)
  {
    x.nextSibling := v;
  }

  method AssignPrev(x: Node, v: Node?, ghost S: set<Node>)
    requires x in S
    modifies x`prevSibling
    ensures GraphOf(S) == SetPrev(old(GraphOf(S)), x, v)
  {
    x.prevSibling := v;
  }

  method AssignFirst(x: Node, v: Node?, ghost S: set<Node>)
    requires x in S
    modifies x`firstChild
    ensures GraphOf(S) == SetFirst(old(GraphOf(S)), x, v)
  {
    x.firstChild := v;
  }

  method AssignParent(x: Node, v: Node?, ghost S: set<Node>)
    requires x in S
    modifies x`parentNode
    ensures x in old(GraphOf(S)) && GraphOf(S) == old(GraphOf(S))[x := old(GraphOf(S))[x].(parent := v)]
  {
    x.parentNode := v;
  }

  /** The assignments of ixmlNode_removeChild. */
  method UnlinkLinks(p: Node, c: Node, ghost S: set<Node>)
    requires p in S && c in S && InUse(c.prevSibling, S) && InUse(c.nextSibling, S)
    modifies S`parentNode, S`firstChild, S`prevSibling, S`nextSibling
    ensures GraphOf(S) == Unlinked(old(GraphOf(S)), p, c)
  {
    ghost var g := GraphOf(S);
    if c.prevSibling != null {
      AssignNext(c.prevSibling, c.nextSibling, S);
    }
    ghost var g1 := SetNext(g, g[c].prev, g[c].next);
    assert GraphOf(S) == g1;
    assert LinksOf(c) == g1[c] && LinksOf(p) == g1[p];
    if p.firstChild == c {
      AssignFirst(p, c.nextSibling, S);
    }
    ghost var g2 := if g1[p].first == c then SetFirst(g1, p, g1[c].next) else g1;
    assert GraphOf(S) == g2;
    assert LinksOf(c) == g2[c];
    if c.nextSibling != null {
      AssignPrev(c.nextSibling, c.prevSibling, S);
    }
    ghost var g3 := SetPrev(g2, g2[c].next, g2[c].prev);
    assert GraphOf(S) == g3;
    Detach(c, S);
  }

  method Detach(c: Node, ghost S: set<Node>)
    requires c in S
    modifies c`parentNode, c`prevSibling, c`nextSibling
    ensures c in old(GraphOf(S)) && GraphOf(S) == old(GraphOf(S))[c := Links(null, old(GraphOf(S))[c].first, null, null)]
  {
    c.nextSibling := null;
    c.prevSibling := null;
    c.parentNode := null;
  }

  // ----- ixmlNode_appendChild -----

  /** The graph and the shape once a child that is already there has been taken out. */
  ghost function TakenOut(g: Graph, p: Node, c: Node): (u: Graph)
    requires p in g && c in g
    ensures u.Keys == g.Keys
  {
    if g[c].parent == p then Unlinked(g, p, c) else g
  }

  ghost function TakenOutShape(g: Graph, k: Shape, p: Node, c: Node): Shape
    requires Agrees(g, k) && p in g && c in g
  {
    if g[c].parent == p then UnlinkedAgrees(g, k, p, c); UnlinkedShape(g, k, p, c) else k
  }

  lemma TakenOutAgrees(g: Graph, k: Shape, p: Node, c: Node)
    requires Agrees(g, k) && p in g && c in g
    ensures TakenOut(g, p, c).Keys == g.Keys && Agrees(TakenOut(g, p, c), TakenOutShape(g, k, p, c))
    ensures TakenOutShape(g, k, p, c).Keys == k.Keys == g.Keys
  {
    hide Agrees, Unlinked;
    OkAt(g, k, p);
    if g[c].parent == p {
      UnlinkedAgrees(g, k, p, c);
      UnlinkedAt(g, k, p, c, c);
    }
  }

  /** What ixmlNode_appendChild does to the links when it succeeds. */
  ghost function AppendResult(g: Graph, k: Shape, p: Node, c: Node): Graph
    requires Agrees(g, k) && p in g && c in g
  {
    TakenOutAgrees(g, k, p, c);
    Appended(TakenOut(g, p, c), p, c, LastKid(TakenOutShape(g, k, p, c), p))
  }

  /** The last node of the sibling list that starts at the first child of `p`. */
  method FindLast(first: Node, p: Node, ghost S: set<Node>, ghost g: Graph, ghost k: Shape) returns (prev: Node)
    requires Agrees(g, k) && g.Keys == S && p in g && p in k && first == g[p].first
    requires forall n | n in S :: n.nextSibling == g[n].next
    ensures prev == LastKid(k, p) && prev in S
  {
    hide Agrees, UpOk, DownOk;
    FirstIsKid(g, k, p);
    prev := first;
    ghost var i := 0;
    ChildAt(g, k, p, 0);
    UpFacts(g, k, prev);
    var next := prev.nextSibling;
    while next != null
      invariant 0 <= i < |k[p].kids| && prev == k[p].kids[i] && prev in S
      invariant next == After(k[p].kids, i)
      decreases |k[p].kids| - i
    {
      i := i + 1;
      prev := next;
      ChildAt(g, k, p, i);
      UpFacts(g, k, prev);
      next := prev.nextSibling;
    }
  }

  method AppendChild(nodeptr: Node?, newChild: Node?, ghost S: set<Node>, ghost k: Shape) returns (rc: ReturnCode)
    requires Agrees(GraphOf(S), k) && InUse(nodeptr, S) && InUse(newChild, S)
    modifies S`parentNode, S`firstChild, S`prevSibling, S`nextSibling, S`ownerDocument
    ensures rc == if nodeptr == null || newChild == null then IXML_INVALID_PARAMETER
                  else if old(newChild.ownerDocument) != null && nodeptr.ownerDocument != old(newChild.ownerDocument)
                    then IXML_WRONG_DOCUMENT_ERR
                  else if BelowFrom(old(GraphOf(S)), k, newChild, nodeptr) || !Allows(nodeptr.nodeType, newChild.nodeType)
                    then IXML_HIERARCHY_REQUEST_ERR
                  else IXML_SUCCESS
    ensures rc == IXML_SUCCESS ==>
              && GraphOf(S) == AppendResult(old(GraphOf(S)), k, nodeptr, newChild)
              && newChild.ownerDocument == nodeptr.ownerDocument
    ensures rc != IXML_SUCCESS ==>
              GraphOf(S) == old(GraphOf(S)) && forall n | n in S :: n.ownerDocument == old(n.ownerDocument)
    ensures forall n | n in S && n != newChild :: n.ownerDocument == old(n.ownerDocument)
  {
    hide Agrees, BelowFrom, AppendResult, Allows;
    if nodeptr == null || newChild == null {
      return IXML_INVALID_PARAMETER;
    }
    if newChild.ownerDocument != null && nodeptr.ownerDocument != newChild.ownerDocument {
      return IXML_WRONG_DOCUMENT_ERR;
    }
    var isAncestor := IsAncestor(newChild, nodeptr, S, k);
    if isAncestor {
      return IXML_HIERARCHY_REQUEST_ERR;
    }
    if !Allows(nodeptr.nodeType, newChild.nodeType) {
      return IXML_HIERARCHY_REQUEST_ERR;
    }
    MoveToEnd(nodeptr, newChild, S, k);
    newChild.ownerDocument := nodeptr.ownerDocument;
    rc := IXML_SUCCESS;
  }

  /** ixmlNode_appendChild after the checks. */
  method MoveToEnd(nodeptr: Node, newChild: Node, ghost S: set<Node>, ghost k: Shape)
    requires Agrees(GraphOf(S), k) && nodeptr in S && newChild in S
    modifies S`parentNode, S`firstChild, S`prevSibling, S`nextSibling
    ensures GraphOf(S) == AppendResult(old(GraphOf(S)), k, nodeptr, newChild)
  {
    hide Agrees, Unlinked, Appended, LastKid, TakenOutShape;
    ghost var g := GraphOf(S);
    TakenOutAgrees(g, k, nodeptr, newChild);
    var isParent := IsParent(nodeptr, newChild);
    SiblingsInUse(g, k, newChild);
    if isParent {
      var _, _ := RemoveChild(nodeptr, newChild, S);
    }
    AppendLinks(nodeptr, newChild, S, TakenOutShape(g, k, nodeptr, newChild));
  }

  /** The assignments of ixmlNode_appendChild after the checks. */
  method AppendLinks(nodeptr: Node, newChild: Node, ghost S: set<Node>, ghost k: Shape)
    requires Agrees(GraphOf(S), k) && nodeptr in S && newChild in S && nodeptr in k
    modifies S`parentNode, S`firstChild, S`prevSibling, S`nextSibling
    ensures GraphOf(S) == Appended(old(GraphOf(S)), nodeptr, newChild, LastKid(k, nodeptr))
  {
    hide Agrees, LastKid;
    ghost var g := GraphOf(S);
    AssignParent(newChild, nodeptr, S);
    ghost var g1 := g[newChild := g[newChild].(parent := nodeptr)];
    assert LinksOf(nodeptr) == g1[nodeptr];
    if nodeptr.firstChild == null {
      AssignFirst(nodeptr, newChild, S);
    } else {
      forall n | n in S ensures n.nextSibling == g[n].next {
        assert LinksOf(n) == g1[n];
      }
      assert g.Keys == S;
      var prev := FindLast(nodeptr.firstChild, nodeptr, S, g, k);
      AssignNext(prev, newChild, S);
      AssignPrev(newChild, prev, S);
    }
  }

  // ----- ixmlNode_insertBefore -----

  /** What ixmlNode_insertBefore does to the links when it succeeds. */
  ghost function InsertResult(g: Graph, k: Shape, p: Node, c: Node, r: Node): (u: Graph)
    requires Agrees(g, k) && p in g && c in g && r in g
    ensures u.Keys == g.Keys
  {
    LinkedBefore(TakenOut(g, p, c), p, c, r)
  }

  /** A null reference child fails the assertion of ixmlNode_isParent. */
  method InsertBefore(nodeptr: Node?, newChild: Node?, refChild: Node?, ghost S: set<Node>, ghost k: Shape)
    returns (rc: ReturnCode)
    requires Agrees(GraphOf(S), k) && InUse(nodeptr, S) && InUse(newChild, S) && InUse(refChild, S)
    modifies S`parentNode, S`firstChild, S`prevSibling, S`nextSibling
    ensures rc == if nodeptr == null || newChild == null then IXML_INVALID_PARAMETER
                  else if !Allows(nodeptr.nodeType, newChild.nodeType) || BelowFrom(old(GraphOf(S)), k, newChild, nodeptr)
                    then IXML_HIERARCHY_REQUEST_ERR
                  else if nodeptr.ownerDocument != newChild.ownerDocument then IXML_WRONG_DOCUMENT_ERR
                  else if refChild == null then ASSERTION_FAILED
                  else if old(refChild.parentNode) != nodeptr then IXML_NOT_FOUND_ERR
                  else IXML_SUCCESS
    ensures rc == IXML_SUCCESS ==> GraphOf(S) == InsertResult(old(GraphOf(S)), k, nodeptr, newChild, refChild)
    ensures rc != IXML_SUCCESS ==> GraphOf(S) == old(GraphOf(S))
  {
    hide Agrees, BelowFrom, Unlinked, LinkedBefore;
    if nodeptr == null || newChild == null {
      return IXML_INVALID_PARAMETER;
    }
    if !Allows(nodeptr.nodeType, newChild.nodeType) {
      return IXML_HIERARCHY_REQUEST_ERR;
    }
    var isAncestor := IsAncestor(newChild, nodeptr, S, k);
    if isAncestor {
      return IXML_HIERARCHY_REQUEST_ERR;
    }
    if nodeptr.ownerDocument != newChild.ownerDocument {
      return IXML_WRONG_DOCUMENT_ERR;
    }
    if refChild == null {
      return ASSERTION_FAILED;
    }
    var isParent := IsParent(nodeptr, refChild);
    if !isParent {
      return IXML_NOT_FOUND_ERR;
    }
    ghost var g := GraphOf(S);
    isParent := IsParent(nodeptr, newChild);
    TakenOutAgrees(g, k, nodeptr, newChild);
    SiblingsInUse(g, k, newChild);
    if isParent {
      var _, _ := RemoveChild(nodeptr, newChild, S);
    }
    ghost var k1 := TakenOutShape(g, k, nodeptr, newChild);
    SiblingsInUse(GraphOf(S), k1, refChild);
    SiblingsInUse(GraphOf(S), k1, newChild);
    InsertLinks(nodeptr, newChild, refChild, S);
    rc := IXML_SUCCESS;
  }

  lemma SiblingsInUse(g: Graph, k: Shape, n: Node)
    requires Agrees(g, k) && n in g
    ensures g[n].prev != null ==> g[n].prev in g
    ensures g[n].next != null ==> g[n].next in g
  {
    hide Agrees;
    OkAt(g, k, n);
    if g[n].parent != null {
      ChildFacts(g, k, n);
    }
  }

  /** The assignments of ixmlNode_insertBefore after the checks. */
  method InsertLinks(p: Node, c: Node, r: Node, ghost S: set<Node>)
    requires p in S && c in S && r in S && InUse(r.prevSibling, S) && InUse(c.prevSibling, S)
    modifies S`parentNode, S`firstChild, S`prevSibling, S`nextSibling
    ensures GraphOf(S) == LinkedBefore(old(GraphOf(S)), p, c, r)
  {
    ghost var g := GraphOf(S);
    AssignNext(c, r, S);
    ghost var g1 := SetNext(g, c, r);
    assert LinksOf(r) == g1[r];
    if r.prevSibling != null {
      AssignNext(r.prevSibling, c, S);
      assert LinksOf(r).prev == g1[r].prev;
      AssignPrev(c, r.prevSibling, S);
    }
    ghost var g2 := if g1[r].prev == null then g1 else SetPrev(SetNext(g1, g1[r].prev, c), c, g1[r].prev);
    assert GraphOf(S) == g2;
    AssignPrev(r, c, S);
    ghost var g3 := SetPrev(g2, r, c);
    assert LinksOf(c) == g3[c];
    if c.prevSibling == null {
      AssignFirst(p, c, S);
    }
    AssignParent(c, p, S);
  }

  // ----- what the operations do to the tree -----

  /** The cases the operations are written for: the new child is detached or already a child of this parent. */
  ghost predicate MayMove(g: Graph, p: Node, c: Node)
    requires c in g
  {
    c != p && (g[c].parent == null || g[c].parent == p)
  }

  /** The children of `p` other than `c`, in order. */
  ghost function OtherKids(g: Graph, k: Shape, p: Node, c: Node): seq<Node>
    requires Agrees(g, k) && p in g && c in g
  {
    OkAt(g, k, p);
    if g[c].parent == p then UpFacts(g, k, c); Without(k[p].kids, k[c].pos) else k[p].kids
  }

  /** In these cases isAncestor answers exactly whether the new child is an ancestor of the parent. */
  lemma IsAncestorIsExact(g: Graph, k: Shape, p: Node, c: Node)
    requires Agrees(g, k) && p in g && c in g && MayMove(g, p, c)
    ensures BelowFrom(g, k, c, p) <==> Below(g, k, c, p)
  {
    hide Agrees, Below;
    if BelowLaterSibling(g, k, c, p) {
      UpFacts(g, k, c);
      var j :| k[c].pos < j < |k[p].kids| && BelowKid(g, k, p, j, p);
      ChildAt(g, k, p, j);
      UpFacts(g, k, k[p].kids[j]);
      BelowIsLower(g, k, k[p].kids[j], p);
    }
  }

  lemma TakenOutDetached(g: Graph, k: Shape, p: Node, c: Node)
    requires Agrees(g, k) && p in g && c in g && MayMove(g, p, c) && !Below(g, k, c, p)
    ensures var g0, k0 := TakenOut(g, p, c), TakenOutShape(g, k, p, c);
            && Agrees(g0, k0) && p in g0 && c in g0 && p in k0
            && g0[c].parent == null && !Below(g0, k0, c, p)
            && k0[p].kids == OtherKids(g, k, p, c)
            && (forall n | n in g && n != p :: n in k0 && n in k && k0[n].kids == k[n].kids)
  {
    hide Agrees, Below, Unlinked;
    OkAt(g, k, c);
    TakenOutAgrees(g, k, p, c);
    if g[c].parent == p {
      var g0, k0 := TakenOut(g, p, c), TakenOutShape(g, k, p, c);
      UpFacts(g, k, c);
      UnlinkedAt(g, k, p, c, c);
      if Below(g0, k0, c, p) {
        BelowIsLower(g0, k0, c, p);
      }
    }
  }

  ghost function AppendShape(g: Graph, k: Shape, p: Node, c: Node): Shape
    requires Agrees(g, k) && p in g && c in g
  {
    TakenOutAgrees(g, k, p, c);
    var k0 := TakenOutShape(g, k, p, c);
    InsertedShape(TakenOut(g, p, c), k0, p, c, |k0[p].kids|)
  }

  /**
   appendChild of a node that may be moved: the result is a forest again, in
   which `c` is the last child of `p` and no other list of children has changed.
   */
  lemma AppendChildCorrect(g: Graph, k: Shape, p: Node, c: Node)
    requires Agrees(g, k) && p in g && c in g && MayMove(g, p, c) && !Below(g, k, c, p)
    ensures var k' := AppendShape(g, k, p, c);
            && Agrees(AppendResult(g, k, p, c), k')
            && p in k' && k'[p].kids == OtherKids(g, k, p, c) + [c]
            && (forall n | n in g && n != p :: n in k' && n in k && k'[n].kids == k[n].kids)
  {
    hide Agrees, Below, Appended, TakenOut, TakenOutShape, InsertedRank, IsInsertion, OtherKids;
    TakenOutDetached(g, k, p, c);
    var g0, k0 := TakenOut(g, p, c), TakenOutShape(g, k, p, c);
    AppendedIsInsertion(g0, k0, p, c);
    InsertionAgrees(g0, k0, p, c, |k0[p].kids|, AppendResult(g, k, p, c));
    TakenOutAgrees(g, k, p, c);
  }

  /** In every other case in which appendChild succeeds, the links it leaves are those of no forest. */
  lemma AppendChildBreaks(g: Graph, k: Shape, p: Node, c: Node, k': Shape)
    requires Agrees(g, k) && p in g && c in g && !MayMove(g, p, c)
    ensures !Agrees(AppendResult(g, k, p, c), k')
  {
    hide Agrees, Appended, LastKid, Unlinked;
    OkAt(g, k, p);
    if g[c].parent == p {
      ChildFacts(g, k, c);
    }
    AppendedBreaks(g, k, p, c, k');
  }

  /** appendChild, once its checks have passed, leaves ordered trees exactly when the new child was detached or is already a child of `p`. */
  lemma AppendChildIff(g: Graph, k: Shape, p: Node, c: Node)
    requires Agrees(g, k) && p in g && c in g && !BelowFrom(g, k, c, p)
    ensures (exists k' :: Agrees(AppendResult(g, k, p, c), k')) <==> MayMove(g, p, c)
  {
    hide Agrees, Below, AppendResult, BelowLaterSibling, AppendShape;
    if MayMove(g, p, c) {
      AppendChildCorrect(g, k, p, c);
    } else {
      forall k' ensures !Agrees(AppendResult(g, k, p, c), k') {
        AppendChildBreaks(g, k, p, c, k');
      }
    }
  }

  ghost function InsertShape(g: Graph, k: Shape, p: Node, c: Node, r: Node): Shape
    requires Agrees(g, k) && p in g && c in g && r in g && r != c && g[r].parent == p && MayMove(g, p, c)
  {
    TakenOutAgrees(g, k, p, c);
    var k0 := TakenOutShape(g, k, p, c);
    PlaceTakenOut(g, k, p, c, r);
    InsertedShape(TakenOut(g, p, c), k0, p, c, k0[r].pos)
  }

  /** The reference child keeps its parent, and a place there, when the new child is taken out. */
  lemma PlaceTakenOut(g: Graph, k: Shape, p: Node, c: Node, r: Node)
    requires Agrees(g, k) && p in g && c in g && r in g && r != c && g[r].parent == p
    ensures var g0, k0 := TakenOut(g, p, c), TakenOutShape(g, k, p, c);
            && Agrees(g0, k0) && r in g0 && g0[r].parent == p && p in k0 && r in k0
            && k0[r].pos < |k0[p].kids| && k0[p].kids[k0[r].pos] == r
  {
    hide Agrees, Unlinked;
    TakenOutAgrees(g, k, p, c);
    if g[c].parent == p {
      UnlinkedAt(g, k, p, c, r);
    }
    UpFacts(TakenOut(g, p, c), TakenOutShape(g, k, p, c), r);
  }

  /** insertBefore of a node that may be moved, before a child other than itself. */
  lemma InsertBeforeCorrect(g: Graph, k: Shape, p: Node, c: Node, r: Node)
    requires Agrees(g, k) && p in g && c in g && r in g && r != c && g[r].parent == p
    requires MayMove(g, p, c) && !Below(g, k, c, p)
    ensures var k' := InsertShape(g, k, p, c, r); var others := OtherKids(g, k, p, c);
            && Agrees(InsertResult(g, k, p, c, r), k')
            && (exists i | 0 <= i < |others| :: others[i] == r && k'[p].kids == Inserted(others, i, c))
            && (forall n | n in g && n != p :: k'[n].kids == k[n].kids)
  {
    hide Agrees, Below, LinkedBefore, TakenOut, TakenOutShape, InsertedRank, IsInsertion, OtherKids, Inserted;
    TakenOutAgrees(g, k, p, c);
    TakenOutDetached(g, k, p, c);
    PlaceTakenOut(g, k, p, c, r);
    var g0, k0 := TakenOut(g, p, c), TakenOutShape(g, k, p, c);
    LinkedBeforeIsInsertion(g0, k0, p, c, r);
    InsertionAgrees(g0, k0, p, c, k0[r].pos, InsertResult(g, k, p, c, r));
    assert OtherKids(g, k, p, c)[k0[r].pos] == r;
  }

  /** In every other case in which insertBefore succeeds, the links it leaves are those of no forest. */
  lemma InsertBeforeBreaks(g: Graph, k: Shape, p: Node, c: Node, r: Node, k': Shape)
    requires Agrees(g, k) && p in g && c in g && r in g && g[r].parent == p
    requires !MayMove(g, p, c) || r == c
    ensures !Agrees(InsertResult(g, k, p, c, r), k')
  {
    hide Agrees, LinkedBefore, Unlinked;
    TakenOutAgrees(g, k, p, c);
    OkAt(g, k, p);
    if r == c {
      SelfReferenceBreaks(TakenOut(g, p, c), p, c, k');
    } else {
      if g[c].parent == p {
        ChildFacts(g, k, c);
      }
      LinkedBeforeBreaks(g, k, p, c, r, k');
    }
  }

  /** The same for insertBefore, which must not be given the new child as its own reference. */
  lemma InsertBeforeIff(g: Graph, k: Shape, p: Node, c: Node, r: Node)
    requires Agrees(g, k) && p in g && c in g && r in g && g[r].parent == p && !BelowFrom(g, k, c, p)
    ensures (exists k' :: Agrees(InsertResult(g, k, p, c, r), k')) <==> MayMove(g, p, c) && r != c
  {
    hide Agrees, Below, InsertResult, BelowLaterSibling, InsertShape, OtherKids;
    if MayMove(g, p, c) && r != c {
      InsertBeforeCorrect(g, k, p, c, r);
    } else {
      forall k' ensures !Agrees(InsertResult(g, k, p, c, r), k') {
        InsertBeforeBreaks(g, k, p, c, r, k');
      }
    }
  }

  /** A node inserted before itself becomes its own sibling. */
  lemma SelfReferenceBreaks(g: Graph, p: Node, c: Node, k': Shape)
    requires p in g && c in g
    ensures !Agrees(LinkedBefore(g, p, c, c), k')
  {
    hide Agrees, UpOk, DownOk;
    var u := LinkedBefore(g, p, c, c);
    if Agrees(u, k') {
      ForestIsLocallyLinked(u, k', c);
    }
  }

  /** removeChild of a child: the result is a forest again, without `c` among the children of `p`. */
  lemma RemoveChildCorrect(g: Graph, k: Shape, p: Node, c: Node)
    requires Agrees(g, k) && p in g && c in g && g[c].parent == p
    ensures g.Keys == k.Keys && k[c].pos < |k[p].kids|
    ensures var k' := UnlinkedShape(g, k, p, c);
            && Agrees(Unlinked(g, p, c), k') && Unlinked(g, p, c)[c].parent == null
            && k'[p].kids == OtherKids(g, k, p, c)
            && (forall n | n in g && n != p :: k'[n].kids == k[n].kids)
  {
    hide Agrees, Unlinked;
    UnlinkedAgrees(g, k, p, c);
    UnlinkedAt(g, k, p, c, c);
  }

  // ----- ixmlNode_replaceChild -----

  /** What ixmlNode_replaceChild does to the links when it succeeds. */
  ghost function ReplaceResult(g: Graph, k: Shape, p: Node, c: Node, r: Node): Graph
    requires Agrees(g, k) && p in g && c in g && r in g
  {
    Unlinked(InsertResult(g, k, p, c, r), p, r)
  }

  method ReplaceChild(nodeptr: Node?, newChild: Node?, oldChild: Node?, ghost S: set<Node>, ghost k: Shape)
    returns (rc: ReturnCode, returnNode: Node?)
    requires Agrees(GraphOf(S), k) && InUse(nodeptr, S) && InUse(newChild, S) && InUse(oldChild, S)
    modifies S`parentNode, S`firstChild, S`prevSibling, S`nextSibling
    ensures rc == if nodeptr == null || newChild == null || oldChild == null then IXML_INVALID_PARAMETER
                  else if BelowFrom(old(GraphOf(S)), k, newChild, nodeptr) || !Allows(nodeptr.nodeType, newChild.nodeType)
                    then IXML_HIERARCHY_REQUEST_ERR
                  else if nodeptr.ownerDocument != newChild.ownerDocument then IXML_WRONG_DOCUMENT_ERR
                  else if old(oldChild.parentNode) != nodeptr then IXML_NOT_FOUND_ERR
                  else IXML_SUCCESS
    ensures rc == IXML_SUCCESS ==>
              returnNode == oldChild && GraphOf(S) == ReplaceResult(old(GraphOf(S)), k, nodeptr, newChild, oldChild)
    ensures rc != IXML_SUCCESS ==> GraphOf(S) == old(GraphOf(S))
  {
    hide Agrees, BelowFrom, Below, Unlinked, InsertResult, Allows;
    returnNode := null;
    if nodeptr == null || newChild == null || oldChild == null {
      return IXML_INVALID_PARAMETER, returnNode;
    }
    var isAncestor := IsAncestor(newChild, nodeptr, S, k);
    if isAncestor {
      return IXML_HIERARCHY_REQUEST_ERR, returnNode;
    }
    if !Allows(nodeptr.nodeType, newChild.nodeType) {
      return IXML_HIERARCHY_REQUEST_ERR, returnNode;
    }
    if nodeptr.ownerDocument != newChild.ownerDocument {
      return IXML_WRONG_DOCUMENT_ERR, returnNode;
    }
    var isParent := IsParent(nodeptr, oldChild);
    if !isParent {
      return IXML_NOT_FOUND_ERR, returnNode;
    }
    ghost var g := GraphOf(S);
    rc := InsertBefore(nodeptr, newChild, oldChild, S, k);
    OldChildLinks(g, k, nodeptr, newChild, oldChild);
    assert LinksOf(oldChild) == GraphOf(S)[oldChild];
    rc, returnNode := RemoveChild(nodeptr, oldChild, S);
  }

  /** The old child is still a child, with siblings in use, when the new one has been inserted. */
  lemma OldChildLinks(g: Graph, k: Shape, p: Node, c: Node, r: Node)
    requires Agrees(g, k) && p in g && c in g && r in g && g[r].parent == p
    ensures var l := InsertResult(g, k, p, c, r)[r];
            l.parent == p && (l.prev != null ==> l.prev in g) && (l.next != null ==> l.next in g)
  {
    hide Agrees, Unlinked, TakenOutShape;
    TakenOutAgrees(g, k, p, c);
    SiblingsInUse(TakenOut(g, p, c), TakenOutShape(g, k, p, c), r);
    SiblingsInUse(TakenOut(g, p, c), TakenOutShape(g, k, p, c), c);
    if g[c].parent == p {
      UnlinkedAt(g, k, p, c, r);
    }
  }

  lemma OldChildStays(g: Graph, k: Shape, p: Node, c: Node, r: Node)
    requires Agrees(g, k) && p in g && c in g && r in g && r != c && g[r].parent == p && MayMove(g, p, c)
    requires !Below(g, k, c, p)
    ensures r in InsertResult(g, k, p, c, r) && InsertResult(g, k, p, c, r)[r].parent == p
  {
    hide Agrees, Below, TakenOutShape, TakenOut, LinkedBefore, InsertedShape;
    TakenOutAgrees(g, k, p, c);
    TakenOutDetached(g, k, p, c);
    PlaceTakenOut(g, k, p, c, r);
    var g0, k0 := TakenOut(g, p, c), TakenOutShape(g, k, p, c);
    LinkedBeforeIsInsertion(g0, k0, p, c, r);
    InsertionFacts(g0, k0, p, c, k0[r].pos, InsertResult(g, k, p, c, r), r);
  }

  lemma InsertedThenWithout<T>(s: seq<T>, i: nat, x: T)
    requires i < |s|
    ensures i + 1 < |Inserted(s, i, x)|
    ensures Inserted(s, i, x)[i + 1] == s[i] && Without(Inserted(s, i, x), i + 1) == s[i := x]
  {
  }

  ghost function ReplaceShape(g: Graph, k: Shape, p: Node, c: Node, r: Node): Shape
    requires Agrees(g, k) && p in g && c in g && r in g && r != c && g[r].parent == p && MayMove(g, p, c)
    requires !Below(g, k, c, p)
  {
    InsertBeforeCorrect(g, k, p, c, r);
    OldChildStays(g, k, p, c, r);
    UnlinkedAgrees(InsertResult(g, k, p, c, r), InsertShape(g, k, p, c, r), p, r);
    UnlinkedShape(InsertResult(g, k, p, c, r), InsertShape(g, k, p, c, r), p, r)
  }

  /** replaceChild: the new child takes the place of the old one among the other children. */
  lemma ReplaceChildCorrect(g: Graph, k: Shape, p: Node, c: Node, r: Node)
    requires Agrees(g, k) && p in g && c in g && r in g && r != c && g[r].parent == p
    requires MayMove(g, p, c) && !Below(g, k, c, p)
    ensures var k' := ReplaceShape(g, k, p, c, r); var others := OtherKids(g, k, p, c);
            && Agrees(ReplaceResult(g, k, p, c, r), k')
            && (exists i | 0 <= i < |others| :: others[i] == r && k'[p].kids == others[i := c])
            && (forall n | n in g && n != p :: k'[n].kids == k[n].kids)
  {
    hide Agrees, Below, Unlinked, InsertShape, InsertResult, OtherKids, UpOk, DownOk, Inserted, Without;
    InsertBeforeCorrect(g, k, p, c, r);
    OldChildStays(g, k, p, c, r);
    var u, k1, others := InsertResult(g, k, p, c, r), InsertShape(g, k, p, c, r), OtherKids(g, k, p, c);
    UpFacts(u, k1, r);
    UnlinkedAgrees(u, k1, p, r);
    var i :| 0 <= i < |others| && others[i] == r && k1[p].kids == Inserted(others, i, c);
    InsertedThenWithout(others, i, c);
    KeysAgree(u, k1);
    ChildAt(u, k1, p, i + 1);
    ReplacedKids(u, k1, p, r, others, i, c);
  }

  lemma ReplacedKids(u: Graph, k1: Shape, p: Node, r: Node, others: seq<Node>, i: nat, c: Node)
    requires u.Keys == k1.Keys && p in u && r in u && i < |others| && k1[p].kids == Inserted(others, i, c)
    requires k1[r].pos == i + 1 < |k1[p].kids|
    ensures UnlinkedShape(u, k1, p, r)[p].kids == others[i := c]
    ensures forall n | n in u && n != p :: UnlinkedShape(u, k1, p, r)[n].kids == k1[n].kids
  {
    InsertedThenWithout(others, i, c);
  }

  /** Replacing a child by itself does not keep it: it is removed. */
  lemma ReplaceByItselfRemoves(g: Graph, k: Shape, p: Node, c: Node)
    requires Agrees(g, k) && p in g && c in g && g[c].parent == p
    ensures ReplaceResult(g, k, p, c, c) == Unlinked(g, p, c)
  {
    hide Agrees, Unlinked;
    TakenOutAgrees(g, k, p, c);
    UnlinkedAt(g, k, p, c, c);
    UnlinkedAt(g, k, p, c, p);
    ChildFacts(g, k, c);
    NotFirstAnyMore(g, k, p, c);
    SelfLinkUndone(Unlinked(g, p, c), p, c);
  }

  lemma NotFirstAnyMore(g: Graph, k: Shape, p: Node, c: Node)
    requires Agrees(g, k) && p in g && c in g && g[c].parent == p
    ensures p in Unlinked(g, p, c) && Unlinked(g, p, c)[p].first != c
  {
    hide Agrees, Unlinked;
    UnlinkedAt(g, k, p, c, p);
    ChildFacts(g, k, c);
  }

  lemma SelfLinkUndone(g: Graph, p: Node, c: Node)
    requires p in g && c in g && c != p && g[c].parent == null && g[c].prev == null && g[c].next == null && g[p].first != c
    ensures p in LinkedBefore(g, p, c, c) && c in LinkedBefore(g, p, c, c)
            && Unlinked(LinkedBefore(g, p, c, c), p, c) == g
  {
  }

  /** In the remaining cases in which replaceChild succeeds, the links it leaves are those of no forest. */
  lemma ReplaceChildBreaks(g: Graph, k: Shape, p: Node, c: Node, r: Node, k': Shape)
    requires Agrees(g, k) && p in g && c in g && r in g && g[r].parent == p && r != c && !MayMove(g, p, c)
    ensures !Agrees(ReplaceResult(g, k, p, c, r), k')
  {
    hide Agrees, Unlinked, LinkedBefore;
    OkAt(g, k, p);
    if g[c].parent == p {
      ChildFacts(g, k, c);
    }
    if c == p {
      ReplaceWithParentBreaks(g, p, r, k');
    } else {
      ReplaceForeignBreaks(g, k, p, c, r, k');
    }
  }

  /** The same for replaceChild. */
  lemma ReplaceChildIff(g: Graph, k: Shape, p: Node, c: Node, r: Node)
    requires Agrees(g, k) && p in g && c in g && r in g && g[r].parent == p && !BelowFrom(g, k, c, p)
    ensures (exists k' :: Agrees(ReplaceResult(g, k, p, c, r), k')) <==> MayMove(g, p, c)
  {
    hide Agrees, Below, ReplaceResult, BelowLaterSibling, ReplaceShape, OtherKids, Unlinked, UnlinkedShape;
    if MayMove(g, p, c) {
      if r == c {
        ReplaceByItselfRemoves(g, k, p, c);
        UnlinkedAgrees(g, k, p, c);
      } else {
        ReplaceChildCorrect(g, k, p, c, r);
      }
    } else {
      ChildFacts(g, k, r);
      forall k' ensures !Agrees(ReplaceResult(g, k, p, c, r), k') {
        ReplaceChildBreaks(g, k, p, c, r, k');
      }
    }
  }

  lemma ReplaceWithParentBreaks(g: Graph, p: Node, r: Node, k': Shape)
    requires p in g && r in g && r != p
    ensures LinkedBefore(g, p, p, r).Keys == g.Keys && !Agrees(Unlinked(LinkedBefore(g, p, p, r), p, r), k')
  {
    hide Agrees, UpOk, DownOk;
    var u := Unlinked(LinkedBefore(g, p, p, r), p, r);
    assert u[p].parent == p;
    if Agrees(u, k') {
      ForestIsLocallyLinked(u, k', p);
    }
  }

  lemma ReplaceForeignBreaks(g: Graph, k: Shape, p: Node, c: Node, r: Node, k': Shape)
    requires Agrees(g, k) && p in g && c in g && r in g && g[r].parent == p && r != c
    requires c != p && g[c].parent != null && g[c].parent != p
    ensures LinkedBefore(g, p, c, r).Keys == g.Keys && !Agrees(Unlinked(LinkedBefore(g, p, c, r), p, r), k')
  {
    hide Agrees, UpOk, DownOk, Before, After;
    var q := g[c].parent;
    var u := Unlinked(LinkedBefore(g, p, c, r), p, r);
    NeighbourOf(g, k, p, r);
    UpFacts(g, k, c);
    NeighbourOf(g, k, q, c);
    var other := if g[c].prev != null then g[c].prev else q;
    if Agrees(u, k') {
      ForestIsLocallyLinked(u, k', c);
      ForestIsLocallyLinked(u, k', other);
      ForestIsLocallyLinked(u, k', p);
    }
  }

  /** What the links say around a child. */
  lemma NeighbourOf(g: Graph, k: Shape, p: Node, r: Node)
    requires Agrees(g, k) && p in g && r in g && g[r].parent == p
    ensures r != p
    ensures g[r].prev != null ==> g[r].prev in g && g[g[r].prev].parent == p && g[g[r].prev].next == r && g[r].prev != r
    ensures g[r].next != null ==> g[r].next in g && g[g[r].next].parent == p && g[g[r].next].prev == r && g[r].next != r
    ensures g[r].prev == null <==> g[p].first == r
    ensures g[r].prev != null && g[r].next != null ==> g[r].prev != g[r].next
  {
    hide Agrees, UpOk, DownOk;
    ChildFacts(g, k, r);
    UpFacts(g, k, r);
    FirstFacts(g, k, p);
    ChildAt(g, k, p, 0);
    if k[r].pos > 0 {
      ChildAt(g, k, p, k[r].pos - 1);
      UpFacts(g, k, g[r].prev);
    }
    if k[r].pos + 1 < |k[p].kids| {
      ChildAt(g, k, p, k[r].pos + 1);
      UpFacts(g, k, g[r].next);
    }
  }

  // ----- which nodes hold which -----

  type Types = map<Node, NodeType>

  /**
   Text, CDATA and attribute nodes hold nothing, elements neither documents nor attribute
   nodes, and documents elements only.
   */
  ghost predicate Typed(g: Graph, t: Types) {
    g.Keys == t.Keys &&
    forall n | n in g && g[n].parent != null && g[n].parent in g :: MayHold(t[g[n].parent], t[n])
  }

  predicate MayHold(parent: NodeType, child: NodeType) {
    && parent !in {eTEXT_NODE, eCDATA_SECTION_NODE, eATTRIBUTE_NODE}
    && (parent == eELEMENT_NODE ==> child !in {eDOCUMENT_NODE, eATTRIBUTE_NODE})
    && (parent == eDOCUMENT_NODE ==> child == eELEMENT_NODE)
  }

  /** No node but `c` gets a new parent, and that is `p`. */
  ghost predicate OnlyMoved(g: Graph, u: Graph, p: Node, c: Node) {
    u.Keys == g.Keys && forall n | n in g :: u[n].parent == null || u[n].parent == if n == c then p else g[n].parent
  }

  lemma TypedAfter(g: Graph, u: Graph, t: Types, p: Node, c: Node)
    requires Typed(g, t) && OnlyMoved(g, u, p, c) && p in g && c in g && Allows(t[p], t[c])
    ensures Typed(u, t)
  {
  }

  /** No node gets a new parent. */
  ghost predicate OnlyDetached(g: Graph, u: Graph) {
    u.Keys == g.Keys && forall n | n in g :: u[n].parent == null || u[n].parent == g[n].parent
  }

  lemma TypedBefore(g: Graph, u: Graph, t: Types)
    requires Typed(g, t) && OnlyDetached(g, u)
    ensures Typed(u, t)
  {
  }

  lemma UnlinkedDetaches(g: Graph, p: Node, c: Node)
    requires p in g && c in g
    ensures OnlyDetached(g, Unlinked(g, p, c))
  {
  }

  lemma LinkedBeforeMoves(g: Graph, p: Node, c: Node, r: Node)
    requires p in g && c in g && r in g
    ensures OnlyMoved(g, LinkedBefore(g, p, c, r), p, c)
  {
  }

  lemma AppendedMoves(g: Graph, p: Node, c: Node, last: Node?)
    requires p in g && c in g
    ensures OnlyMoved(g, Appended(g, p, c, last), p, c)
  {
  }

  lemma MovedAfterDetached(g: Graph, g0: Graph, u: Graph, p: Node, c: Node)
    requires OnlyDetached(g, g0) && OnlyMoved(g0, u, p, c)
    ensures OnlyMoved(g, u, p, c)
  {
  }

  /** A successful appendChild keeps the types of parents and children. */
  lemma AppendKeepsTypes(g: Graph, k: Shape, t: Types, p: Node, c: Node)
    requires Agrees(g, k) && Typed(g, t) && p in g && c in g && Allows(t[p], t[c])
    ensures Typed(AppendResult(g, k, p, c), t)
  {
    hide Agrees, Typed, Allows, Unlinked, LastKid, Appended, OnlyMoved;
    UnlinkedDetaches(g, p, c);
    TakenOutAgrees(g, k, p, c);
    AppendedMoves(TakenOut(g, p, c), p, c, LastKid(TakenOutShape(g, k, p, c), p));
    MovedAfterDetached(g, TakenOut(g, p, c), AppendResult(g, k, p, c), p, c);
    TypedAfter(g, AppendResult(g, k, p, c), t, p, c);
  }

  /** So does insertBefore. */
  lemma InsertKeepsTypes(g: Graph, k: Shape, t: Types, p: Node, c: Node, r: Node)
    requires Agrees(g, k) && Typed(g, t) && p in g && c in g && r in g && Allows(t[p], t[c])
    ensures Typed(InsertResult(g, k, p, c, r), t)
  {
    hide Agrees, Typed, Allows, Unlinked, LinkedBefore, OnlyMoved;
    UnlinkedDetaches(g, p, c);
    LinkedBeforeMoves(TakenOut(g, p, c), p, c, r);
    MovedAfterDetached(g, TakenOut(g, p, c), InsertResult(g, k, p, c, r), p, c);
    TypedAfter(g, InsertResult(g, k, p, c, r), t, p, c);
  }

  /** And replaceChild. */
  lemma ReplaceKeepsTypes(g: Graph, k: Shape, t: Types, p: Node, c: Node, r: Node)
    requires Agrees(g, k) && Typed(g, t) && p in g && c in g && r in g && Allows(t[p], t[c])
    ensures Typed(ReplaceResult(g, k, p, c, r), t)
  {
    hide Agrees, Allows, Typed, InsertResult, Unlinked;
    InsertKeepsTypes(g, k, t, p, c, r);
    UnlinkedDetaches(InsertResult(g, k, p, c, r), p, r);
    TypedBefore(InsertResult(g, k, p, c, r), ReplaceResult(g, k, p, c, r), t);
  }

  // ----- a child moved from another parent -----

  /** Two trees side by side: `q` with the child `c`, and `p` with the child `r`. */
  ghost function TwoFamilies(p: Node, r: Node, q: Node, c: Node): Graph {
    map[p := Links(null, r, null, null), r := Links(p, null, null, null),
        q := Links(null, c, null, null), c := Links(q, null, null, null)]
  }

  ghost function TwoFamiliesShape(p: Node, r: Node, q: Node, c: Node): Shape {
    map[p := Place([r], 0, 1), r := Place([], 0, 0), q := Place([c], 0, 1), c := Place([], 0, 0)]
  }

  /** The check against ancestors lets `c` pass, but no operation that takes it to `p` leaves ordered trees. */
  lemma MovedFromAnotherParent(p: Node, r: Node, q: Node, c: Node, k': Shape)
    requires p != r && p != q && p != c && r != q && r != c && q != c
    ensures var g, k := TwoFamilies(p, r, q, c), TwoFamiliesShape(p, r, q, c);
            && Agrees(g, k) && g[r].parent == p && !BelowFrom(g, k, c, p)
            && !Agrees(AppendResult(g, k, p, c), k')
            && !Agrees(InsertResult(g, k, p, c, r), k')
            && !Agrees(ReplaceResult(g, k, p, c, r), k')
  {
    hide AppendResult, InsertResult, ReplaceResult;
    var g, k := TwoFamilies(p, r, q, c), TwoFamiliesShape(p, r, q, c);
    assert Agrees(g, k);
    NothingBelow(g, k, c, p);
    AppendChildBreaks(g, k, p, c, k');
    InsertBeforeBreaks(g, k, p, c, r, k');
    ReplaceChildBreaks(g, k, p, c, r, k');
  }

  lemma NothingBelow(g: Graph, k: Shape, c: Node, p: Node)
    requires Agrees(g, k) && c in g && c in k && p in g && k[c].kids == [] && g[c].next == null
    ensures !BelowFrom(g, k, c, p)
  {
    hide Agrees, UpOk, DownOk;
    if g[c].parent != null {
      UpFacts(g, k, c);
    }
    assert !Below(g, k, c, p);
    assert !BelowLaterSibling(g, k, c, p);
  }
}
