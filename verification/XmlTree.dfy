/**
 The DOM tree as a value, and what the library computes from it by walking from
 a node to its first child and then to its next sibling: the text it prints
 (ixml.c) and the copy it makes (node.c).
 */
module XmlTree {
  import opened XmlText

  datatype Attr = Attr(name: string, value: string)

  datatype Tree =
    | Element(name: string, attrs: seq<Attr>, kids: seq<Tree>)
    | TextNode(value: string)
    | CDataNode(value: string)

  predicate DistinctNames(attrs: seq<Attr>) {
    forall i, j | 0 <= i < j < |attrs| :: attrs[i].name != attrs[j].name
  }

  // ----- printing -----

  /** The attribute branch of ixmlPrintDomTreeRecursive, which goes on to the next attribute. */
  function PrintAttrs(attrs: seq<Attr>): string {
    if attrs == [] then ""
    else
      attrs[0].name + "=\"" + Escape(attrs[0].value) + "\""
      + if |attrs| == 1 then "" else " " + PrintAttrs(attrs[1..])
  }

  function PrintOpenTag(name: string, attrs: seq<Attr>): string {
    "<" + name + if attrs == [] then "" else " " + PrintAttrs(attrs)
  }

  /** The line break after a start tag, when an element comes first inside. */
  function GapInside(kids: seq<Tree>): string {
    if kids != [] && kids[0].Element? then "\r\n" else ""
  }

  /** The line break after the end tag of the first sibling, unless text comes next. */
  function GapAfter(siblings: seq<Tree>): string {
    if |siblings| > 1 && siblings[1].TextNode? then "" else "\r\n"
  }

  /**
   ixmlPrintDomTreeRecursive on the first of `siblings`: an element goes on to
   its next sibling, a text or CDATA node does not.
   */
  function PrintSiblings(siblings: seq<Tree>): string {
    if siblings == [] then ""
    else match siblings[0]
      case TextNode(value) => Escape(value)
      case CDataNode(value) => "<![CDATA[" + value + "]]>"
      case Element(name, attrs, kids) =>
        PrintOpenTag(name, attrs)
        + (">" + GapInside(kids))
        + PrintSiblings(kids)
        + "</" + name
        + (">" + GapAfter(siblings))
        + PrintSiblings(siblings[1..])
  }

  const XML_PROLOG: string := "<?xml version=\"1.0\"?>\r\n"

  /** ixmlDocumenttoString on a document with these children. */
  function PrintDocument(kids: seq<Tree>): string {
    XML_PROLOG + PrintSiblings(kids)
  }

  /** ixmlDomTreetoString on one node: no line breaks around the node, and no siblings. */
  function PrintNode(t: Tree): string {
    if t.Element? then PrintOpenTag(t.name, t.attrs) + ">" + PrintSiblings(t.kids) + "</" + t.name + ">"
    else PrintSiblings([t])
  }

  /** Where the printer breaks lines: after a start tag before an element, and after an end tag unless text follows. */
  lemma LineBreaks(name: string, attrs: seq<Attr>, kids: seq<Tree>, rest: seq<Tree>)
    ensures PrintSiblings([Element(name, attrs, kids)] + rest) ==
            PrintOpenTag(name, attrs) + (if kids != [] && kids[0].Element? then ">\r\n" else ">") + PrintSiblings(kids)
            + "</" + name + (if rest != [] && rest[0].TextNode? then ">" else ">\r\n") + PrintSiblings(rest)
  {
    hide PrintOpenTag;
    var siblings := [Element(name, attrs, kids)] + rest;
    assert siblings[1..] == rest && (rest != [] ==> siblings[1] == rest[0]);
    assert ">" + GapInside(kids) == if kids != [] && kids[0].Element? then ">\r\n" else ">";
    assert ">" + GapAfter(siblings) == if rest != [] && rest[0].TextNode? then ">" else ">\r\n";
  }

  // ----- cloning -----

  /** ixmlNode_cloneNodeTreeRecursive, deep, on the first of `siblings`. */
  function CloneSiblings(siblings: seq<Tree>): seq<Tree> {
    if siblings == [] then []
    else match siblings[0]
      case TextNode(_) => [siblings[0]]
      case CDataNode(_) => [siblings[0]]
      case Element(name, attrs, kids) =>
        [Element(name, attrs, CloneSiblings(kids))] + CloneSiblings(siblings[1..])
  }

  /** A deep clone prints exactly the text of its source: both stop at the same sibling. */
  lemma {:induction false} ClonePrintsTheSame(siblings: seq<Tree>)
    ensures PrintSiblings(CloneSiblings(siblings)) == PrintSiblings(siblings)
  {
    if siblings != [] && siblings[0].Element? {
      ClonePrintsTheSame(siblings[0].kids);
      ClonePrintsTheSame(siblings[1..]);
      var copy := CloneSiblings(siblings);
      assert copy[1..] == CloneSiblings(siblings[1..]);
    }
  }

  /** Nothing after the first text or CDATA node among the children of any element, as far as the walk goes. */
  predicate WalkSeesAll(siblings: seq<Tree>) {
    siblings == [] ||
    if siblings[0].Element? then WalkSeesAll(siblings[0].kids) && WalkSeesAll(siblings[1..])
    else |siblings| == 1
  }

  /** A deep clone equals its source exactly when the walk sees every node. */
  lemma {:induction false} CloneIsIdentity(siblings: seq<Tree>)
    ensures CloneSiblings(siblings) == siblings <==> WalkSeesAll(siblings)
    ensures WalkSeesAll(CloneSiblings(siblings))
  {
    if siblings != [] && siblings[0].Element? {
      CloneIsIdentity(siblings[0].kids);
      CloneIsIdentity(siblings[1..]);
      var copy := CloneSiblings(siblings);
      assert copy[1..] == CloneSiblings(siblings[1..]);
      assert siblings == [siblings[0]] + siblings[1..];
    }
  }
}
