/**
 The parse loop of Parser_parseDocument (ixmlparser.c) as a state machine: one
 node is read, the element stack and the tree under construction are updated.
 */
module XmlMachine {
  import opened Utf8
  import opened XmlNames
  import opened XmlText
  import opened XmlScan
  import opened XmlTree

  /** A node on the way from the document down to currentNodePtr, with the children it has so far. */
  datatype Frame = Frame(nodeName: string, attrs: seq<Attr>, kids: seq<Tree>)

  const DOCUMENT_NAME: string := "#document"

  /**
   The parser between two turns of its loop.  `path` leads from the document
   (first) to currentNodePtr (last); `stack` is the element stack, its top last.
   `plain` says that no prefixed name and no xmlns attribute has been read.
   */
  datatype Machine = Machine(
    cursor: Cursor,
    stack: seq<string>,
    path: seq<Frame>,
    hasTopLevel: bool,
    plain: bool)

  datatype Outcome =
    | Accepted(kids: seq<Tree>)
    | Rejected
    /** an end tag arrives while no element is open: the assertion of Parser_isValidEndElement */
    | Aborted

  datatype Turn = Running(machine: Machine) | Stopped(outcome: Outcome)

  /**
   The namespace functions are not modelled; they can only matter once a prefix or
   xmlns has been seen.  Their outcome on an attribute is any function of the text left
   after it, its name and its value.  No two attributes leave the same text, so the
   outcomes of a run are arbitrary.
   */
  datatype Config = Config(errorChar: ErrorChar, namespaceOutcome: (string, string, string) -> bool)

  predicate HasColon(name: string) {
    exists i | 0 <= i < |name| :: name[i] == ':'
  }

  predicate IsPlainAttribute(name: string) {
    !HasColon(name) && name != "xmlns"
  }

  function EnvOf(m: Machine, config: Config): Env {
    Env(config.errorChar, m.stack != [],
        (left: string, name: string, value: string) =>
          (m.plain && IsPlainAttribute(name)) || config.namespaceOutcome(left, name, value))
  }

  function Top(m: Machine): Frame
    requires m.path != []
  {
    m.path[|m.path| - 1]
  }

  function WithTop(m: Machine, top: Frame): Machine
    requires m.path != []
  {
    m.(path := m.path[..|m.path| - 1] + [top])
  }

  /** isDuplicateAttribute */
  predicate HasAttr(attrs: seq<Attr>, name: string) {
    exists a | a in attrs :: a.name == name
  }

  /** Parser_processElementName */
  function Open(m: Machine, name: string): Turn
    requires m.path != []
  {
    if m.hasTopLevel && m.stack == [] then Stopped(Rejected)
    else Running(m.(path := m.path + [Frame(name, [], [])], stack := m.stack + [name],
                    hasTopLevel := true, plain := m.plain && !HasColon(name)))
  }

  /** The text and CDATA branches: ixmlNode_appendChild refuses a document as the parent. */
  function AppendLeaf(m: Machine, leaf: Tree): Turn
    requires m.path != []
  {
    if |m.path| == 1 then Stopped(Rejected)
    else Running(WithTop(m, Top(m).(kids := Top(m).kids + [leaf])))
  }

  /** Parser_processAttributeName */
  function AddAttribute(m: Machine, name: string, value: string): Turn
    requires m.path != []
  {
    if HasAttr(Top(m).attrs, name) then Stopped(Rejected)
    else Running(WithTop(m, Top(m).(attrs := Top(m).attrs + [Attr(name, value)]))
                 .(plain := m.plain && IsPlainAttribute(name)))
  }

  /** The current node becomes the last child of its parent, which becomes the current node. */
  function Leave(m: Machine): Machine
    requires |m.path| >= 2
  {
    var done := Top(m);
    var parent := m.path[|m.path| - 2];
    m.(path := m.path[..|m.path| - 2]
         + [parent.(kids := parent.kids + [Element(done.nodeName, done.attrs, done.kids)])])
  }

  /** Parser_eTagVerification: the stack check, then the check against the current node. */
  function Close(m: Machine, name: string): Turn
    requires m.path != []
  {
    if m.stack == [] then Stopped(Aborted)
    else if m.stack[|m.stack| - 1] != name then Stopped(Rejected)
    else
      var popped := m.(stack := m.stack[..|m.stack| - 1]);
      if Top(popped).nodeName != name || |m.path| < 2 then Stopped(Rejected)
      else Running(Leave(popped).(cursor := m.cursor.(state := CONTENT)))
  }

  /** The switch on the node that was read; `m.cursor` is already past it. */
  function Apply(m: Machine, node: NewNode): Turn
    requires m.path != []
  {
    match node
    case Nothing => Running(m)
    case StartTag(name) => Open(m, name)
    case Attribute(name, value) => AddAttribute(m, name, value)
    case Text(value) => AppendLeaf(m, TextNode(value))
    case CData(value) => AppendLeaf(m, CDataNode(value))
    case EndTag(name) => Close(m, name)
  }

  /** One turn of the loop. */
  function Step(m: Machine, config: Config): Turn
    requires m.path != []
  {
    match GetNextNode(m.cursor, EnvOf(m, config))
    case FileDone => Stopped(if m.stack == [] then Accepted(m.path[0].kids) else Rejected)
    case Failed => Stopped(Rejected)
    case Got(node, cursor) => Apply(m.(cursor := cursor), node)
  }

  lemma FileDoneAtEnd(c: Cursor, env: Env)
    ensures GetNextNode(c, env) == FileDone <==> c.rest == ""
  {
    hide GetNextToken, ProcessCDSect, SkipWs, SkipComment, SkipPI, CopyToken, TextLength, Find, NoLessThan, IsNameChar, Utf8ToInt;
  }

  lemma ApplyNeverAccepts(m: Machine, node: NewNode)
    requires m.path != []
    ensures Apply(m, node).Stopped? ==> !Apply(m, node).outcome.Accepted?
  {
  }

  lemma StepProgress(m: Machine, config: Config)
    requires m.path != []
    ensures var t := Step(m, config);
            t.Running? ==>
              && t.machine.path != []
              && (|t.machine.cursor.rest| < |m.cursor.rest|
                  || (t.machine.cursor.rest == m.cursor.rest && m.cursor.state == CONTENT && t.machine.cursor.state == ELEMENT))
  {
    hide GetNextNode;
  }

  function Weight(state: State): nat {
    if state == CONTENT then 1 else 0
  }

  /** The loop until it stops. */
  function Run(m: Machine, config: Config): Outcome
    requires m.path != []
    decreases |m.cursor.rest|, Weight(m.cursor.state)
  {
    StepProgress(m, config);
    match Step(m, config)
    case Stopped(outcome) => outcome
    case Running(next) => Run(next, config)
  }

  function Start(rest: string): Machine {
    Machine(Cursor(rest, ELEMENT, ""), [], [Frame(DOCUMENT_NAME, [], [])], false, true)
  }

  /** Parser_parseDocument */
  function Parse(text: string, config: Config): Outcome {
    var prolog := SkipProlog(text);
    if prolog.ok then Run(Start(prolog.rest), config) else Rejected
  }
}
