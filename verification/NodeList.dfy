/**
 The linked list of nodes in which a search returns its result (nodeList.c).
 A list is empty when the pointer is null or when its only cell holds no node.
 */
module NodeLists {
  import opened Dom

  class NodeList {
    var nodeItem: Node?
    var next: NodeList?

    /** malloc and ixmlNodeList_init. */
    constructor ()
      ensures nodeItem == null && next == null
    {
      nodeItem, next := null, null;
    }
  }

  ghost function NextCell(cells: seq<NodeList>, i: nat): NodeList?
    requires i < |cells|
  {
    if i + 1 < |cells| then cells[i + 1] else null
  }

  /** The list at `list` is made of `cells` and holds `items`. */
  ghost predicate Holds(list: NodeList?, cells: seq<NodeList>, items: seq<Node>)
    reads cells
  {
    && (if cells == [] then list == null else list == cells[0])
    && (forall i | 0 <= i < |cells| :: cells[i].next == NextCell(cells, i))
    && (forall i, j | 0 <= i < j < |cells| :: cells[i] != cells[j])
    && if items == [] then |cells| <= 1 && forall i | 0 <= i < |cells| :: cells[i].nodeItem == null
       else |items| == |cells| && forall i | 0 <= i < |cells| :: cells[i].nodeItem == items[i]
  }

  /** ixmlNodeList_addToNodeList; the new head replaces the pointer that was passed by reference. */
  method AddToNodeList(nList: NodeList?, add: Node, ghost cells: seq<NodeList>, ghost items: seq<Node>)
    returns (list: NodeList, ghost newCells: seq<NodeList>)
    requires Holds(nList, cells, items)
    modifies cells
    ensures Holds(list, newCells, items + [add])
    ensures forall i | 0 <= i < |newCells| :: newCells[i] in cells || fresh(newCells[i])
  {
    if nList == null {
      list := new NodeList();
      list.nodeItem := add;
      newCells := [list];
      return;
    }
    list := nList;
    newCells := cells;
    if list.nodeItem == null {
      list.nodeItem := add;
    } else {
      var p: NodeList, traverse := list, list.next;
      ghost var i := 0;
      while traverse != null
        invariant 0 <= i < |cells| && p == cells[i] && traverse == NextCell(cells, i)
        decreases |cells| - i
      {
        i := i + 1;
        p := traverse;
        traverse := traverse.next;
      }
      var newListItem := new NodeList();
      p.next := newListItem;
      newListItem.nodeItem := add;
      newListItem.next := null;
      newCells := cells + [newListItem];
    }
  }

  /** ixmlNodeList_length counts cells: it answers 1 for the empty list that has a cell. */
  method Length(nList: NodeList?, ghost cells: seq<NodeList>, ghost items: seq<Node>) returns (length: nat)
    requires Holds(nList, cells, items)
    ensures length == if items == [] && nList != null then 1 else |items|
  {
    length := 0;
    var list := nList;
    while list != null
      invariant 0 <= length <= |cells| && list == if length < |cells| then cells[length] else null
      decreases |cells| - length
    {
      assert list.next == NextCell(cells, length);
      length := length + 1;
      list := list.next;
    }
  }

  /** ixmlNodeList_item. */
  method Item(nList: NodeList?, index: nat, ghost cells: seq<NodeList>, ghost items: seq<Node>) returns (item: Node?)
    requires Holds(nList, cells, items)
    ensures item == if index < |items| then items[index] else null
  {
    if nList == null {
      return null;
    }
    var length := Length(nList, cells, items);
    if index > length - 1 {
      return null;
    }
    var next: NodeList? := nList;
    var i := 0;
    while i < index && next != null
      invariant 0 <= i <= index < |cells| && next == cells[i]
      decreases index - i
    {
      assert next.next == NextCell(cells, i);
      next := next.next;
      i := i + 1;
    }
    item := next.nodeItem;
  }
}
