/**
 ixmlNode_getElementsByTagName: the recursion over first child and next sibling
 against the filtered document order of the subtree.
 */
module DomSearch {
  import opened Dom
  import opened DomOps
  import opened NodeLists

  // ----- document order -----

  /** A node and everything below it, parents before children and children in order. */
  ghost function Preorder(g: Graph, k: Shape, n: Node): seq<Node>
    requires Agrees(g, k) && n in g
    decreases k[n].rank, 0, 0
  {
    OkAt(g, k, n);
    [n] + PreorderFrom(g, k, n, 0)
  }

  /** The subtrees of the children of `p` from place `i` on. */
  ghost function PreorderFrom(g: Graph, k: Shape, p: Node, i: nat): seq<Node>
    requires Agrees(g, k) && p in g && p in k && i <= |k[p].kids|
    decreases k[p].rank - 1, 1, |k[p].kids| - i
  {
    if i == |k[p].kids| then []
    else
      ChildAt(g, k, p, i);
      UpFacts(g, k, k[p].kids[i]);
      Preorder(g, k, k[p].kids[i]) + PreorderFrom(g, k, p, i + 1)
  }

  /** What the recursion visits from `n` on: its subtree and those of its later siblings. */
  ghost function Visited(g: Graph, k: Shape, n: Node?): seq<Node>
    requires Agrees(g, k) && (n != null ==> n in g)
  {
    if n == null then []
    else if g[n].parent == null then Preorder(g, k, n)
    else UpFacts(g, k, n); PreorderFrom(g, k, g[n].parent, k[n].pos)
  }

  lemma VisitedUnfolds(g: Graph, k: Shape, n: Node)
    requires Agrees(g, k) && n in g
    ensures g[n].first != null ==> g[n].first in g
    ensures g[n].next != null ==> g[n].next in g
    ensures Preorder(g, k, n) == [n] + Visited(g, k, g[n].first)
    ensures Visited(g, k, n) == [n] + Visited(g, k, g[n].first) + Visited(g, k, g[n].next)
  {
    hide Agrees, UpOk, DownOk;
    FirstIsKid(g, k, n);
    if g[n].first != null {
      assert Visited(g, k, g[n].first) == PreorderFrom(g, k, n, 0);
    }
    if g[n].parent == null {
      NoParentNoSibling(g, k, n);
    } else {
      VisitedNext(g, k, n);
    }
  }

  lemma VisitedNext(g: Graph, k: Shape, n: Node)
    requires Agrees(g, k) && n in g && g[n].parent != null
    ensures g[n].next != null ==> g[n].next in g
    ensures Visited(g, k, n) == Preorder(g, k, n) + Visited(g, k, g[n].next)
  {
    hide Agrees, UpOk, DownOk, Preorder;
    UpFacts(g, k, n);
    var p, i := g[n].parent, k[n].pos;
    assert PreorderFrom(g, k, p, i) == Preorder(g, k, n) + PreorderFrom(g, k, p, i + 1);
    if g[n].next != null {
      ChildAt(g, k, p, i + 1);
      assert Visited(g, k, g[n].next) == PreorderFrom(g, k, p, i + 1);
    } else {
      assert PreorderFrom(g, k, p, i + 1) == [];
    }
  }

  /** Document order lists a node and exactly what is below it. */
  lemma {:induction false} PreorderMembers(g: Graph, k: Shape, n: Node, t: Node)
    requires Agrees(g, k) && n in g
    ensures t in Preorder(g, k, n) <==> t == n || Below(g, k, n, t)
    decreases k[n].rank, 0, 0
  {
    hide Agrees, UpOk, DownOk;
    OkAt(g, k, n);
    PreorderFromMembers(g, k, n, 0, t);
    assert t in Preorder(g, k, n) <==> t == n || t in PreorderFrom(g, k, n, 0);
    if Below(g, k, n, t) {
      var i := BelowWitness(g, k, n, t);
    }
  }

  lemma {:induction false} PreorderFromMembers(g: Graph, k: Shape, p: Node, i: nat, t: Node)
    requires Agrees(g, k) && p in g && p in k && i <= |k[p].kids|
    ensures t in PreorderFrom(g, k, p, i) <==> exists j | i <= j < |k[p].kids| :: IsOrBelow(g, k, p, j, t)
    decreases k[p].rank - 1, 1, |k[p].kids| - i
  {
    hide Agrees, UpOk, DownOk, Below, Preorder, IsOrBelow;
    if i < |k[p].kids| {
      ChildAt(g, k, p, i);
      UpFacts(g, k, k[p].kids[i]);
      PreorderMembers(g, k, k[p].kids[i], t);
      PreorderFromMembers(g, k, p, i + 1, t);
      IsOrBelowUnfolds(g, k, p, i, t);
      assert PreorderFrom(g, k, p, i) == Preorder(g, k, k[p].kids[i]) + PreorderFrom(g, k, p, i + 1);
    }
  }

  lemma IsOrBelowUnfolds(g: Graph, k: Shape, p: Node, i: nat, t: Node)
    requires Agrees(g, k) && p in g && p in k && i < |k[p].kids| && k[p].kids[i] in g
    ensures IsOrBelow(g, k, p, i, t) <==> t == k[p].kids[i] || Below(g, k, k[p].kids[i], t)
  {
    hide Agrees, UpOk, DownOk, Below;
  }

  predicate NoRepeats<T(==)>(s: seq<T>) {
    forall i, j | 0 <= i < j < |s| :: s[i] != s[j]
  }

  lemma NoRepeatsConcat<T>(a: seq<T>, b: seq<T>)
    requires NoRepeats(a) && NoRepeats(b) && forall x | x in a :: x !in b
    ensures NoRepeats(a + b)
  {
    forall i, j | 0 <= i < j < |a + b| ensures (a + b)[i] != (a + b)[j] {
      if i < |a| && j >= |a| {
        assert a[i] in a && b[j - |a|] in b;
      }
    }
  }

  /** What is below a node has a parent that is that node or is below it. */
  lemma {:induction false} BelowUp(g: Graph, k: Shape, m: Node, t: Node)
    requires Agrees(g, k) && m in g && Below(g, k, m, t)
    ensures t in g && g[t].parent != null && g[t].parent in g
    ensures g[t].parent == m || Below(g, k, m, g[t].parent)
    decreases k[m].rank
  {
    hide Agrees, UpOk, DownOk;
    OkAt(g, k, m);
    var i := BelowWitness(g, k, m, t);
    ChildAt(g, k, m, i);
    var x := k[m].kids[i];
    UpFacts(g, k, x);
    if x != t {
      BelowUp(g, k, x, t);
      assert IsOrBelow(g, k, m, i, g[t].parent);
    } 
  }

  /** No node lies in the subtrees of two children. */
  lemma {:induction false} SubtreesDisjoint(g: Graph, k: Shape, p: Node, i: nat, j: nat, t: Node)
    requires Agrees(g, k) && p in g && p in k && i < |k[p].kids| && j < |k[p].kids|
    requires IsOrBelow(g, k, p, i, t) && IsOrBelow(g, k, p, j, t)
    ensures i == j
    decreases k[p].rank - if t in k then k[t].rank else 0
  {
    hide Agrees, UpOk, DownOk;
    ChildAt(g, k, p, i);
    ChildAt(g, k, p, j);
    var x, y := k[p].kids[i], k[p].kids[j];
    UpFacts(g, k, x);
    UpFacts(g, k, y);
    if x == t && y == t {
    } else if x == t {
      NotBelowSibling(g, k, y, x);
    } else if y == t {
      NotBelowSibling(g, k, x, y);
    } else {
      BelowUp(g, k, x, t);
      BelowUp(g, k, y, t);
      BelowIsLower(g, k, x, t);
      UpFacts(g, k, t);
      NotAbove(g, k, x, g[t].parent);
      SubtreesDisjoint(g, k, p, i, j, g[t].parent);
    }
  }

  lemma NotAbove(g: Graph, k: Shape, x: Node, u: Node)
    requires Agrees(g, k) && x in g && (u == x || Below(g, k, x, u))
    ensures u in k && x in k && k[u].rank <= k[x].rank
  {
    hide Agrees, Below;
    OkAt(g, k, x);
    if u != x {
      BelowIsLower(g, k, x, u);
    }
  }

  lemma NotBelowSibling(g: Graph, k: Shape, y: Node, x: Node)
    requires Agrees(g, k) && x in g && y in g && g[x].parent != null && g[x].parent == g[y].parent
    ensures !Below(g, k, y, x)
  {
    hide Agrees, Below;
    UpFacts(g, k, y);
    if Below(g, k, y, x) {
      BelowUp(g, k, y, x);
      NotAbove(g, k, y, g[x].parent);
    }
  }

  /** Document order lists no node twice. */
  lemma {:induction false} PreorderOnce(g: Graph, k: Shape, n: Node)
    requires Agrees(g, k) && n in g
    ensures NoRepeats(Preorder(g, k, n))
    decreases k[n].rank, 0, 0
  {
    hide Agrees, UpOk, DownOk, NoRepeats, Below;
    OkAt(g, k, n);
    PreorderFromOnce(g, k, n, 0);
    if n in PreorderFrom(g, k, n, 0) {
      PreorderFromMembers(g, k, n, 0, n);
      BelowItself(g, k, n);
    }
    NoRepeatsConcat([n], PreorderFrom(g, k, n, 0)) by {
      assert NoRepeats([n]) by { SingleOnce(n); }
    }
  }

  lemma SingleOnce<T>(x: T)
    ensures NoRepeats([x])
  {
  }

  lemma BelowItself(g: Graph, k: Shape, n: Node)
    requires Agrees(g, k) && n in g
    ensures n in k && !exists j | 0 <= j < |k[n].kids| :: IsOrBelow(g, k, n, j, n)
  {
    hide Agrees;
    OkAt(g, k, n);
    if Below(g, k, n, n) {
      BelowIsLower(g, k, n, n);
    }
  }

  lemma {:induction false} PreorderFromOnce(g: Graph, k: Shape, p: Node, i: nat)
    requires Agrees(g, k) && p in g && p in k && i <= |k[p].kids|
    ensures NoRepeats(PreorderFrom(g, k, p, i))
    decreases k[p].rank - 1, 1, |k[p].kids| - i
  {
    hide Agrees, UpOk, DownOk, NoRepeats, Below;
    if i == |k[p].kids| {
      assert NoRepeats<Node>([]) by { NothingRepeats<Node>(); }
    } else {
      ChildAt(g, k, p, i);
      var x := k[p].kids[i];
      UpFacts(g, k, x);
      PreorderOnce(g, k, x);
      PreorderFromOnce(g, k, p, i + 1);
      forall t | t in Preorder(g, k, x) ensures t !in PreorderFrom(g, k, p, i + 1) {
        ElsewhereOnly(g, k, p, i, t);
      }
      NoRepeatsConcat(Preorder(g, k, x), PreorderFrom(g, k, p, i + 1));
    }
  }

  lemma NothingRepeats<T>()
    ensures NoRepeats<T>([])
  {
  }

  lemma ElsewhereOnly(g: Graph, k: Shape, p: Node, i: nat, t: Node)
    requires Agrees(g, k) && p in g && p in k && i < |k[p].kids|
    requires k[p].kids[i] in g && t in Preorder(g, k, k[p].kids[i])
    ensures t !in PreorderFrom(g, k, p, i + 1)
  {
    hide Agrees, Below, Preorder, PreorderFrom;
    ChildAt(g, k, p, i);
    UpFacts(g, k, k[p].kids[i]);
    PreorderMembers(g, k, k[p].kids[i], t);
    PreorderFromMembers(g, k, p, i + 1, t);
    assert IsOrBelow(g, k, p, i, t);
    if j :| i + 1 <= j < |k[p].kids| && IsOrBelow(g, k, p, j, t) {
      SubtreesDisjoint(g, k, p, i, j, t);
    }
  }

  // ----- the search -----

  /** An element whose name is the one asked for; "*" asks for every element. */
  ghost predicate Matches(n: Node, tagname: string)
    reads n
  {
    n.nodeType.eELEMENT_NODE? && (tagname == n.nodeName || tagname == "*")
  }

  ghost function Wanted(S: set<Node>, tagname: string): set<Node>
    reads S
  {
    set n | n in S && Matches(n, tagname)
  }

  // ----- what document order is -----

  /** `a` is above `b`, or lies in an earlier subtree of a node that is above both. */
  ghost predicate Precedes(g: Graph, k: Shape, a: Node, b: Node)
    requires Agrees(g, k) && a in g && b in g
  {
    Below(g, k, a, b) || exists p, i, j | p in g :: Parts(g, k, p, i, a, j, b)
  }

  ghost predicate Parts(g: Graph, k: Shape, p: Node, i: int, a: Node, j: int, b: Node)
    requires Agrees(g, k)
  {
    p in g && p in k && 0 <= i < j < |k[p].kids| && IsOrBelow(g, k, p, i, a) && IsOrBelow(g, k, p, j, b)
  }

  lemma {:induction false} PreorderIsOrdered(g: Graph, k: Shape, n: Node, x: nat, y: nat)
    requires Agrees(g, k) && n in g && x < y < |Preorder(g, k, n)|
    ensures var s := Preorder(g, k, n); s[x] in g && s[y] in g && Precedes(g, k, s[x], s[y])
    decreases k[n].rank, 0, 0
  {
    hide Agrees, UpOk, DownOk, Below, IsOrBelow, PreorderFrom, Parts;
    OkAt(g, k, n);
    var s, rest := Preorder(g, k, n), PreorderFrom(g, k, n, 0);
    assert s == [n] + rest;
    if x == 0 {
      assert s[y] == rest[y - 1] && s[y] in s;
      PreorderOnce(g, k, n);
      PreorderMembers(g, k, n, s[y]);
      BelowIsThere(g, k, n, s[y]);
    } else {
      PreorderFromIsOrdered(g, k, n, 0, x - 1, y - 1);
    }
  }

  lemma BelowIsThere(g: Graph, k: Shape, n: Node, t: Node)
    requires Agrees(g, k) && n in g && (t == n || Below(g, k, n, t))
    ensures t in g
  {
    hide Agrees, UpOk, DownOk;
    if t != n {
      BelowIsLower(g, k, n, t);
    }
  }

  lemma {:induction false} PreorderFromIsOrdered(g: Graph, k: Shape, p: Node, c: nat, x: nat, y: nat)
    requires Agrees(g, k) && p in g && p in k && c <= |k[p].kids| && x < y < |PreorderFrom(g, k, p, c)|
    ensures var s := PreorderFrom(g, k, p, c); s[x] in g && s[y] in g && Precedes(g, k, s[x], s[y])
    decreases k[p].rank - 1, 1, |k[p].kids| - c
  {
    hide Agrees, UpOk, DownOk, Below, IsOrBelow, Preorder, PreorderFrom, Parts;
    FromUnfolds(g, k, p, c);
    var kid := k[p].kids[c];
    var head, tail := Preorder(g, k, kid), PreorderFrom(g, k, p, c + 1);
    var s := PreorderFrom(g, k, p, c);
    assert s == head + tail;
    if y < |head| {
      PreorderIsOrdered(g, k, kid, x, y);
    } else if x >= |head| {
      PreorderFromIsOrdered(g, k, p, c + 1, x - |head|, y - |head|);
    } else {
      var a, b := head[x], tail[y - |head|];
      PreorderMembers(g, k, kid, a);
      BelowIsThere(g, k, kid, a);
      IsOrBelowUnfolds(g, k, p, c, a);
      PreorderFromMembers(g, k, p, c + 1, b);
      var j :| c + 1 <= j < |k[p].kids| && IsOrBelow(g, k, p, j, b);
      ChildAt(g, k, p, j);
      UpFacts(g, k, k[p].kids[j]);
      IsOrBelowUnfolds(g, k, p, j, b);
      BelowIsThere(g, k, k[p].kids[j], b);
      assert Parts(g, k, p, c, a, j, b) by { PartsIntro(g, k, p, c, a, j, b); }
    }
  }

  lemma PartsIntro(g: Graph, k: Shape, p: Node, i: int, a: Node, j: int, b: Node)
    requires Agrees(g, k) && p in g && p in k && 0 <= i < j < |k[p].kids| && IsOrBelow(g, k, p, i, a) && IsOrBelow(g, k, p, j, b)
    ensures Parts(g, k, p, i, a, j, b)
  {
    hide Agrees, IsOrBelow;
  }

  lemma FromUnfolds(g: Graph, k: Shape, p: Node, c: nat)
    requires Agrees(g, k) && p in g && p in k && c <= |k[p].kids| && PreorderFrom(g, k, p, c) != []
    ensures c < |k[p].kids| && k[p].kids[c] in g && k[p].kids[c] in k && k[k[p].kids[c]].rank < k[p].rank
    ensures PreorderFrom(g, k, p, c) == Preorder(g, k, k[p].kids[c]) + PreorderFrom(g, k, p, c + 1)
  {
    hide Agrees, UpOk, DownOk, Preorder;
    if c < |k[p].kids| {
      ChildAt(g, k, p, c);
      UpFacts(g, k, k[p].kids[c]);
    }
  }

  /** Members of `s` keep their order. */
  lemma {:induction false} SelectIsOrdered(s: seq<Node>, wanted: set<Node>, x: nat, y: nat) returns (x': nat, y': nat)
    requires x < y < |Select(s, wanted)|
    ensures x' < y' < |s| && s[x'] == Select(s, wanted)[x] && s[y'] == Select(s, wanted)[y]
  {
    if s[0] in wanted {
      if x == 0 {
        y' := SelectAt(s[1..], wanted, y - 1);
        x', y' := 0, y' + 1;
      } else {
        x', y' := SelectIsOrdered(s[1..], wanted, x - 1, y - 1);
        x', y' := x' + 1, y' + 1;
      }
    } else {
      x', y' := SelectIsOrdered(s[1..], wanted, x, y);
      x', y' := x' + 1, y' + 1;
    }
  }

  lemma {:induction false} SelectAt(s: seq<Node>, wanted: set<Node>, x: nat) returns (x': nat)
    requires x < |Select(s, wanted)|
    ensures x' < |s| && s[x'] == Select(s, wanted)[x]
  {
    if s[0] in wanted {
      if x == 0 {
        x' := 0;
      } else {
        x' := SelectAt(s[1..], wanted, x - 1);
        x' := x' + 1;
      }
    } else {
      x' := SelectAt(s[1..], wanted, x);
      x' := x' + 1;
    }
  }

  /** The matches come in document order. */
  lemma SearchIsOrdered(S: set<Node>, k: Shape, n: Node, tagname: string, x: nat, y: nat)
    requires Agrees(GraphOf(S), k) && n in S && x < y < |Select(Preorder(GraphOf(S), k, n), Wanted(S, tagname))|
    ensures var found := Select(Preorder(GraphOf(S), k, n), Wanted(S, tagname));
            found[x] in GraphOf(S) && found[y] in GraphOf(S) && Precedes(GraphOf(S), k, found[x], found[y])
  {
    hide Agrees, Preorder, Below, Select, Precedes;
    var x', y' := SelectIsOrdered(Preorder(GraphOf(S), k, n), Wanted(S, tagname), x, y);
    PreorderIsOrdered(GraphOf(S), k, n, x', y');
  }

  /** The members of `s` that are in `wanted`, in the same order. */
  ghost function Select(s: seq<Node>, wanted: set<Node>): seq<Node> {
    if s == [] then [] else (if s[0] in wanted then [s[0]] else []) + Select(s[1..], wanted)
  }

  lemma {:induction false} SelectConcat(a: seq<Node>, b: seq<Node>, wanted: set<Node>)
    ensures Select(a + b, wanted) == Select(a, wanted) + Select(b, wanted)
  {
    if a == [] {
      assert a + b == b;
    } else {
      var ab := a + b;
      assert ab[0] == a[0] && ab[1..] == a[1..] + b;
      SelectConcat(a[1..], b, wanted);
      var head := if a[0] in wanted then [a[0]] else [];
      assert Select(ab, wanted) == head + Select(ab[1..], wanted);
      assert Select(a, wanted) == head + Select(a[1..], wanted);
    }
  }

  lemma {:induction false} SelectMembers(s: seq<Node>, wanted: set<Node>, n: Node)
    ensures n in Select(s, wanted) <==> n in s && n in wanted
  {
    if s != [] {
      SelectMembers(s[1..], wanted, n);
    }
  }

  lemma {:induction false} SelectOnce(s: seq<Node>, wanted: set<Node>)
    requires NoRepeats(s)
    ensures NoRepeats(Select(s, wanted))
  {
    if s != [] {
      SelectOnce(s[1..], wanted);
      SelectMembers(s[1..], wanted, s[0]);
    }
  }

  lemma InGraph(S: set<Node>, n: Node)
    requires InUse(n, S)
    ensures n in GraphOf(S) && GraphOf(S)[n] == LinksOf(n)
    ensures GraphOf(S)[n].first == n.firstChild && GraphOf(S)[n].next == n.nextSibling
  {
  }

  /** One step of the recursion: the node itself, then what follows below it, then what follows beside it. */
  lemma SearchStep(g: Graph, k: Shape, n: Node, wanted: set<Node>, items: seq<Node>)
    requires Agrees(g, k) && n in g
    ensures (g[n].first != null ==> g[n].first in g) && (g[n].next != null ==> g[n].next in g)
    ensures var found := if n in wanted then items + [n] else items;
            found + Select(Visited(g, k, g[n].first), wanted) + Select(Visited(g, k, g[n].next), wanted)
            == items + Select(Visited(g, k, n), wanted)
  {
    hide Agrees, Visited, Preorder, PreorderFrom;
    VisitedUnfolds(g, k, n);
    SelectConcat([n], Visited(g, k, g[n].first), wanted);
    SelectConcat([n] + Visited(g, k, g[n].first), Visited(g, k, g[n].next), wanted);
    assert Select([n], wanted) == if n in wanted then [n] else [];
  }

  /** The matches among all that the recursion visits from `n` on. */
  ghost function Found(S: set<Node>, k: Shape, n: Node?, tagname: string): seq<Node>
    requires Agrees(GraphOf(S), k) && InUse(n, S)
    reads S
  {
    Select(Visited(GraphOf(S), k, n), Wanted(S, tagname))
  }

  /** How many nodes the recursion visits from `n` on. */
  ghost function Visits(S: set<Node>, k: Shape, n: Node?): nat
    requires Agrees(GraphOf(S), k) && InUse(n, S)
    reads S
  {
    |Visited(GraphOf(S), k, n)|
  }

  lemma RecursionStep(S: set<Node>, k: Shape, n: Node, tagname: string, items: seq<Node>)
    requires Agrees(GraphOf(S), k) && n in S
    ensures InUse(n, S) && InUse(n.firstChild, S) && InUse(n.nextSibling, S)
    ensures var found := if Matches(n, tagname) then items + [n] else items;
            found + Found(S, k, n.firstChild, tagname) + Found(S, k, n.nextSibling, tagname) == items + Found(S, k, n, tagname)
    ensures Visits(S, k, n.firstChild) < Visits(S, k, n) && Visits(S, k, n.nextSibling) < Visits(S, k, n)
  {
    hide Agrees, Visited, Select, Preorder;
    InGraph(S, n);
    SearchStep(GraphOf(S), k, n, Wanted(S, tagname), items);
    VisitedUnfolds(GraphOf(S), k, n);
  }

  /** ixmlNode_getElementsByTagNameRecursive: the list grows by the matches among all it visits. */
  method GetElementsByTagNameRecursive(n: Node?, tagname: string, list: NodeList?,
                                       ghost cells: seq<NodeList>, ghost items: seq<Node>,
                                       ghost S: set<Node>, ghost k: Shape)
    returns (result: NodeList?, ghost newCells: seq<NodeList>)
    requires Agrees(GraphOf(S), k) && InUse(n, S)
    requires Holds(list, cells, items)
    modifies cells
    ensures Holds(result, newCells, items + Found(S, k, n, tagname))
    ensures forall i | 0 <= i < |newCells| :: newCells[i] in cells || fresh(newCells[i])
    decreases Visits(S, k, n)
  {
    hide Agrees, Found, Visits, Holds, UpOk, DownOk, GraphOf;
    result, newCells := list, cells;
    if n != null {
      RecursionStep(S, k, n, tagname, items);
      ghost var found := items;
      if n.nodeType == eELEMENT_NODE && (tagname == n.nodeName || tagname == "*") {
        result, newCells := AddToNodeList(result, n, newCells, found);
        found := found + [n];
      }
      result, newCells := GetElementsByTagNameRecursive(n.firstChild, tagname, result, newCells, found, S, k);
      found := found + Found(S, k, n.firstChild, tagname);
      result, newCells := GetElementsByTagNameRecursive(n.nextSibling, tagname, result, newCells, found, S, k);
    } else {
      NothingFound(S, k, tagname, items);
    }
  }

  lemma NothingFound(S: set<Node>, k: Shape, tagname: string, items: seq<Node>)
    requires Agrees(GraphOf(S), k)
    ensures items + Found(S, k, null, tagname) == items
  {
    hide Agrees;
  }

  /** ixmlNode_getElementsByTagName with an empty list: the matches of the subtree of `n`, in document order. */
  method GetElementsByTagName(n: Node, tagname: string, ghost S: set<Node>, ghost k: Shape)
    returns (list: NodeList?, ghost cells: seq<NodeList>)
    requires Agrees(GraphOf(S), k) && n in S
    ensures Holds(list, cells, Select(Preorder(GraphOf(S), k, n), Wanted(S, tagname)))
    ensures exists chain :: Holds(list, chain, Select(Preorder(GraphOf(S), k, n), Wanted(S, tagname)))
  {
    hide Agrees, Found, Visits, Select, UpOk, DownOk, Preorder, PreorderFrom, Visited, GraphOf;
    RootStep(S, k, n, tagname);
    list, cells := null, [];
    ghost var found: seq<Node> := [];
    if n.nodeType == eELEMENT_NODE && (tagname == n.nodeName || tagname == "*") {
      list, cells := AddToNodeList(list, n, cells, found);
      found := found + [n];
    }
    list, cells := GetElementsByTagNameRecursive(n.firstChild, tagname, list, cells, found, S, k);
  }

  lemma RootStep(S: set<Node>, k: Shape, n: Node, tagname: string)
    requires Agrees(GraphOf(S), k) && n in S
    ensures n in GraphOf(S) && InUse(n.firstChild, S)
    ensures (if Matches(n, tagname) then [] + [n] else []) + Found(S, k, n.firstChild, tagname)
         == Select(Preorder(GraphOf(S), k, n), Wanted(S, tagname))
  {
    hide Agrees, Visited, Preorder, PreorderFrom;
    InGraph(S, n);
    var g, wanted := GraphOf(S), Wanted(S, tagname);
    VisitedUnfolds(g, k, n);
    SelectConcat([n], Visited(g, k, g[n].first), wanted);
    assert Select([n], wanted) == if n in wanted then [n] else [];
  }

  /** The result holds each match that is `n` or lies below it once, and nothing else. */
  lemma SearchIsExact(S: set<Node>, k: Shape, n: Node, tagname: string, t: Node)
    requires Agrees(GraphOf(S), k) && n in S
    ensures var found := Select(Preorder(GraphOf(S), k, n), Wanted(S, tagname));
            && NoRepeats(found)
            && (t in found <==> (t == n || Below(GraphOf(S), k, n, t))
                                && t.nodeType == eELEMENT_NODE && (tagname == "*" || t.nodeName == tagname))
  {
    hide Agrees, Preorder, NoRepeats, Below, Select;
    var g, wanted := GraphOf(S), Wanted(S, tagname);
    PreorderOnce(g, k, n);
    PreorderMembers(g, k, n, t);
    SelectOnce(Preorder(g, k, n), wanted);
    SelectMembers(Preorder(g, k, n), wanted, t);
    if Below(g, k, n, t) {
      BelowIsLower(g, k, n, t);
    }
  }
}
