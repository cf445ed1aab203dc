# Verification of the TR-069 client's protocol cores

This Dafny project models five parts of the client and proves properties of the
model.  Methods follow the C code, on objects, arrays and
linked nodes; each is proved against functions or predicates, about which the
main results are proved as lemmas for all inputs, all runs or all reachable
states.

| files | what they model |
|---|---|
| `Utf8`, `XmlNames`, `XmlReference`, `XmlText`, `Membuf` | character coding, name tables, references, escaping and token copying, the growable buffer |
| `XmlScan`, `XmlTokens`, `XmlMachine`, `XmlParser` | the XML scanner and the parse loop, as functions and as an object with a cursor |
| `XmlInvariant` | what the parse loop keeps on every input |
| `XmlTree`, `XmlRead`, `XmlRoundTrip` | printing, and reading back what was printed |
| `XmlSpelling`, `XmlRefusal` | a grammar of documents with all spellings, read as the trees they denote, and what is refused |
| `Dom`, `DomOps` | nodes with parent, child and sibling pointers, and the operations that relink them in place |
| `NodeList`, `DomSearch`, `DomView`, `DomWalk`, `DomPrint`, `DomClone` | search by tag name, printing and cloning on linked nodes |
| `DomBuild`, `DomRoundTrip` | the document that the parser builds node by node, and the ways from text to nodes to text and from nodes to text to nodes |
| `Memory`, `Blocks`, `Md5`, `Sha1`, `Hmac` | the streaming hashes and HMAC, against RFC 1321, FIPS PUB 180-1 and RFC 2104 |
| `StunFormat`, `StunRoundTrip`, `StunCodec` | STUN messages (RFC 3489): parser, encoder and their round trip |
| `RateLimiter`, `UdpFilter`, `TimeoutDiscovery` | the connection rate limiter, the filter on UDP requests, the search for the keep-alive period |

How to read it:

* A C string is a `string` of bytes without its NUL; the C cursor is an offset,
  and the text that is left is a suffix.
* The links of all nodes in use form a `Graph` value; `Agrees(g, k)` says that
  they are those of ordered trees with shape `k` (children in order, place among
  the siblings, height).  `Walkable` asks less: first-child and next-sibling links
  that lead to an end, which is all that printing and cloning need.  Shapes,
  graphs and the set of nodes in use are ghosts.
* Machine words of the hashes are `bv32`; lengths, counters and times are
  integers with the wrap-around of the source written out.
* Where the C code writes outside its data, results say so (`Undefined`, a null-pointer
  write, a failed assertion) instead of preconditions that exclude the case.
* The STUN structures are packed and the target is little-endian, so that the NUL behind
  a reason of 256 bytes falls on the low byte of its size, which is 0.
* Clocks, replies, configuration values and the outcome of the namespace
  functions are parameters.

Where the code does not do what its comments or the standard promise, the model
follows the code:

* `appendChild`, `insertBefore` and `replaceChild` are documented to move a node
  that is already in a tree; they only unlink it when it is a child of the same
  parent.  Taken from another parent it leaves the links of no tree behind
  (`AppendChildIff`, `InsertBeforeIff`, `ReplaceChildIff`, `MovedFromAnotherParent`).
* `replaceChild` of a child by itself removes it (`ReplaceByItselfRemoves`).
* `isAncestor` also looks below later siblings (`IsAncestor`).
* A deep clone of a document sets the parent of its first child only
  (`CloneDocument`), which printing does not notice (`PrintDocumentAndCopy`).
* The length of a node list with one empty cell is 1 (`Length`).
* Comments that are empty, or begin with `>` or `->`, are allowed by XML 1.0 but not
  skipped as a whole (`CommentIsSkippedIff`).
* A byte above 127 cuts a CDATA section short (`SectionIsCut`).
* A start tag need not be closed (`StartTagMayBeOpen`), a `>` may stand before the root
  (`StrayBracket`), and the root may be missing (`NoRoot`).
* UNKNOWN-ATTRIBUTES and XOR-ONLY are written in a form that the parser does not
  read (`EvenUnknownIsRefused`, `OddUnknown`, `XorOnlyNotReadBack`).
* The filter on UDP requests passes requests again that share a timestamp
  (`NeverTwiceIff`).
* With equal limits the timeout discovery announces that it sets the timeout to
  the minimum, but sets nothing (`Discover`).
* Until the clock reaches `period`, the zeros in the fresh register make the
  limiter refuse every request (`EarlyRequestsAreRefused`).

## Model

| member | source | states |
|---|---|---|
| XmlRoundTrip.RoundTrip | dm_target_implementation/PCLINUX/dm_target_com/ixml/src/ixml.c:412-428 | Print then parse gives back the document **iff** it has at most one root and, inside, every element holds child elements followed by at most one text or CDATA node and no text is all white space; for every printable tree and every parser mode |
| XmlRoundTrip.ParseOfPrint | dm_target_implementation/PCLINUX/dm_target_com/ixml/src/ixmlparser.c:917-1048 | The parser run on the printed text of any printable document: accepted with exactly the nodes that the printer reaches (white-space-only text dropped) when there is at most one root, refused otherwise |
| XmlRoundTrip.SecondPassIsLossless | dm_target_implementation/PCLINUX/dm_target_com/ixml/src/ixml.c:412-428 | Whatever one print-and-parse pass loses, a second pass loses nothing more |
| XmlSpelling.GrammarIsRead | dm_target_implementation/PCLINUX/dm_target_com/ixml/src/ixmlparser.c:917-1048 | The parser accepts **every** document of a grammar, as the tree it denotes, in either mode: white space wherever tags allow it, either quote, all entities in any letter case, numeric references, empty-element tags, comments and instructions anywhere in content, before and after the root, XML declaration and nested document type |
| XmlSpelling.RunItems | dm_target_implementation/PCLINUX/dm_target_com/ixml/src/ixmlparser.c:917-1048 | From any state inside an element, content in any spelling attaches the trees it denotes; induction over all content |
| XmlSpelling.EmptyElementIsElement | dm_target_implementation/PCLINUX/dm_target_com/ixml/src/ixmlparser.c:1842-1896 | Wherever an element may stand, `<n attrs/>` is read exactly as `<n attrs></n>`, whatever follows |
| XmlSpelling.EmptyElementDocument | dm_target_implementation/PCLINUX/dm_target_com/ixml/src/ixmlparser.c:1883-1886 | The document `<n/>` is accepted as the element n without attributes and children |
| XmlSpelling.RunSpelledOpen | dm_target_implementation/PCLINUX/dm_target_com/ixml/src/ixmlparser.c:1842-1896 | A start tag in any spelling opens its element with its attributes, in order and with what their values stand for |
| XmlSpelling.ReadSpelledAttr | dm_target_implementation/PCLINUX/dm_target_com/ixml/src/ixmlparser.c:2327-2438 | An attribute in any spelling is read with its name and with what its value stands for |
| XmlSpelling.ReadSpelledEnd | dm_target_implementation/PCLINUX/dm_target_com/ixml/src/ixmlparser.c:2167-2209 | An end tag with white space inside is read with its name |
| XmlSpelling.WrittenIsCopied | dm_target_implementation/PCLINUX/dm_target_com/ixml/src/ixmlparser.c:1143-1283 | Characters, entities and references are copied as what they stand for, in strict and in relaxed mode |
| XmlSpelling.CommentIsSkippedIff | dm_target_implementation/PCLINUX/dm_target_com/ixml/src/ixmlparser.c:1416-1435 | Of the comments that XML 1.0 allows, those are skipped as a whole that are not empty and do not begin with `>` or `->`, and no others |
| XmlSpelling.PrologIsSkipped | dm_target_implementation/PCLINUX/dm_target_com/ixml/src/ixmlparser.c:1376-1406 | Declaration, comments, instructions, white space and a document type before the root are passed over |
| XmlSpelling.DtdIsSkipped | dm_target_implementation/PCLINUX/dm_target_com/ixml/src/ixmlparser.c:1442-1477 | Nested brackets and quoted strings of a document type are passed over as a whole |
| XmlRoundTrip.ParseOfPrintNode | dm_target_implementation/PCLINUX/dm_target_com/ixml/src/ixml.c:259-319 | The text of a single element, as ixmlNodetoString writes it, is read back like that of a document |
| XmlTree.LineBreaks | dm_target_implementation/PCLINUX/dm_target_com/ixml/src/ixml.c:140-166 | The printer breaks lines after a start tag before an element and after an end tag unless text follows |
| XmlRefusal.LessThanInValue | dm_target_implementation/PCLINUX/dm_target_com/ixml/src/ixmlparser.c:2385-2398 | `<` in an attribute value makes the parser refuse the document |
| XmlRefusal.UnclosedValue | dm_target_implementation/PCLINUX/dm_target_com/ixml/src/ixmlparser.c:2380-2383 | So does a value without its closing quote |
| XmlRefusal.BareAmpersandInValue | dm_target_implementation/PCLINUX/dm_target_com/ixml/src/ixmlparser.c:1224-1229 | So does, in strict mode, an ampersand in a value that begins no entity |
| XmlRefusal.BareAmpersandInText | dm_target_implementation/PCLINUX/dm_target_com/ixml/src/ixmlparser.c:1224-1229 | And one in character data |
| XmlRefusal.BareAmpersandIsCopied | dm_target_implementation/PCLINUX/dm_target_com/ixml/src/ixmlparser.c:1224-1229 | In relaxed mode such an ampersand stands for itself and copying goes on |
| XmlRefusal.BadReferenceIsCopied | dm_target_implementation/PCLINUX/dm_target_com/ixml/src/ixmlparser.c:1184-1229 | A reference without semicolon, or to no XML character, counts as a bare ampersand in both modes |
| XmlRefusal.BrokenSequenceIsCopied | dm_target_implementation/PCLINUX/dm_target_com/ixml/src/ixmlparser.c:1159-1168 | A byte above ASCII that leads no complete UTF-8 sequence is an error in strict mode and replaced in relaxed mode |
| XmlRefusal.ControlIsCopied | dm_target_implementation/PCLINUX/dm_target_com/ixml/src/ixmlparser.c:1159-1168 | The same for control characters |
| XmlRefusal.SectionEndInText | dm_target_implementation/PCLINUX/dm_target_com/ixml/src/ixmlparser.c:2056-2158 | `]]>` in character data makes the parser refuse the document |
| XmlRefusal.UnclosedComment | dm_target_implementation/PCLINUX/dm_target_com/ixml/src/ixmlparser.c:1416-1435 | So does a comment that is not closed |
| XmlRefusal.CommentEndsInDash | dm_target_implementation/PCLINUX/dm_target_com/ixml/src/ixmlparser.c:1416-1435 | And one that ends in `--->` |
| XmlRefusal.DeclarationInContent | dm_target_implementation/PCLINUX/dm_target_com/ixml/src/ixmlparser.c:1322-1346 | An XML declaration in content, in any letter case, is refused |
| XmlRefusal.LateDeclaration | dm_target_implementation/PCLINUX/dm_target_com/ixml/src/ixmlparser.c:1486-1508 | And one after a comment before the root |
| XmlRefusal.EmptySection | dm_target_implementation/PCLINUX/dm_target_com/ixml/src/ixmlparser.c:1976-2022 | An empty CDATA section is refused |
| XmlRefusal.UnclosedSection | dm_target_implementation/PCLINUX/dm_target_com/ixml/src/ixmlparser.c:1976-2022 | And one that is not closed |
| XmlRefusal.SectionIsCut | dm_target_implementation/PCLINUX/dm_target_com/ixml/src/ixmlparser.c:1976-2022 | A byte above 127 ends a CDATA section; it and the two bytes after it are lost |
| XmlRefusal.NoNameAfterLessThan | dm_target_implementation/PCLINUX/dm_target_com/ixml/src/ixmlparser.c:1537-1549 | `<` in front of no name is refused |
| XmlRefusal.UnfinishedEndTag | dm_target_implementation/PCLINUX/dm_target_com/ixml/src/ixmlparser.c:2167-2209 | An end tag without its bracket is refused |
| XmlRefusal.NoEqualsSign | dm_target_implementation/PCLINUX/dm_target_com/ixml/src/ixmlparser.c:2357-2365 | An attribute without its equals sign is refused |
| XmlRefusal.NoQuote | dm_target_implementation/PCLINUX/dm_target_com/ixml/src/ixmlparser.c:2366-2375 | And one without quotes |
| XmlRefusal.TagInsideTag | dm_target_implementation/PCLINUX/dm_target_com/ixml/src/ixmlparser.c:2421-2430 | A tag that begins after an attribute inside another tag is refused |
| XmlRefusal.SlashOutside | dm_target_implementation/PCLINUX/dm_target_com/ixml/src/ixmlparser.c:2482-2495 | `/>` where nothing was opened is refused |
| XmlRefusal.EndTagOutside | dm_target_implementation/PCLINUX/dm_target_com/ixml/src/ixmlparser.c:580-615 | An end tag where nothing is open fails the assertion |
| XmlRefusal.StartTagMayBeOpen | dm_target_implementation/PCLINUX/dm_target_com/ixml/src/ixmlparser.c:1842-1896 | `<n</n>` is accepted as an element: a start tag without attributes need not be closed |
| XmlRefusal.StrayBracket | dm_target_implementation/PCLINUX/dm_target_com/ixml/src/ixmlparser.c:2467-2500 | A `>` before the root is passed over |
| XmlRefusal.NoRoot | dm_target_implementation/PCLINUX/dm_target_com/ixml/src/ixmlparser.c:2460-2470 | A document of comments and instructions alone is accepted without a root |
| XmlRefusal.MismatchedEnd | dm_target_implementation/PCLINUX/dm_target_com/ixml/src/ixmlparser.c:848-873 | An end tag, in any spelling, that does not name the innermost element is refused |
| XmlRefusal.DuplicateAttribute | dm_target_implementation/PCLINUX/dm_target_com/ixml/src/ixmlparser.c:743-769 | A second attribute of the same name, in any spelling, is refused |
| XmlRefusal.UnclosedElement | dm_target_implementation/PCLINUX/dm_target_com/ixml/src/ixmlparser.c:1033-1036 | A document that ends inside an element is refused |
| XmlRoundTrip.ReparsedIsIdentity | dm_target_implementation/PCLINUX/dm_target_com/ixml/src/ixml.c:87-177 | The reread tree equals the source exactly on the trees described above |
| XmlRoundTrip.RunSiblings | dm_target_implementation/PCLINUX/dm_target_com/ixml/src/ixmlparser.c:917-1048 | From any parser state inside an element, reading printed siblings attaches their reread form to the current node and stops before the closing text; induction over all trees |
| XmlRoundTrip.RunElement | dm_target_implementation/PCLINUX/dm_target_com/ixml/src/ixmlparser.c:917-1048 | From any parser state at a printed element, the run goes on after its end tag with the element attached and the stack as before |
| XmlRoundTrip.RunAttrs | dm_target_implementation/PCLINUX/dm_target_com/ixml/src/ixmlparser.c:2327-2438 | A printed list of distinct attributes is read one by one, in order, with names and values intact |
| XmlRead.ReadAttribute | dm_target_implementation/PCLINUX/dm_target_com/ixml/src/ixmlparser.c:2327-2438 | One printed attribute is read back with its name and its unescaped value, in strict or relaxed mode |
| XmlRead.ReadText | dm_target_implementation/PCLINUX/dm_target_com/ixml/src/ixmlparser.c:2056-2158 | Printed character data is read back as the text it came from |
| XmlRead.ReadCData | dm_target_implementation/PCLINUX/dm_target_com/ixml/src/ixmlparser.c:1976-2022 | A printed CDATA section is read back as its raw bytes |
| XmlRead.ReadEndTag | dm_target_implementation/PCLINUX/dm_target_com/ixml/src/ixmlparser.c:2167-2209 | A printed end tag is read back with its name |
| XmlInvariant.StepKeepsInv | dm_target_implementation/PCLINUX/dm_target_com/ixml/src/ixmlparser.c:917-1048 | Every turn of the parse loop, on every input, keeps the invariant: the element stack spells the path to the current node, the scanner state fits the text ahead, at most one root, attribute names distinct |
| XmlInvariant.SecondCheckIsImplied | dm_target_implementation/PCLINUX/dm_target_com/ixml/src/ixmlparser.c:848-873 | With an element open, an end tag is accepted iff it names the top of the stack: the second check, against the current node, never fails |
| XmlInvariant.SlashClosesInnermost | dm_target_implementation/PCLINUX/dm_target_com/ixml/src/ixmlparser.c:2482-2495 | With an element open, `/>` is never refused and closes the innermost element |
| XmlInvariant.AcceptanceMeansLifo | dm_target_implementation/PCLINUX/dm_target_com/ixml/src/ixmlparser.c:917-1048 | For every input: acceptance implies that the nodes read are exactly the start tags, attributes, texts and end tags of the returned tree, each closed in LIFO order, with at most one root element and no duplicate attribute |
| XmlInvariant.RunSpells | dm_target_implementation/PCLINUX/dm_target_com/ixml/src/ixmlparser.c:917-1048 | From every reachable state: path so far plus nodes still to be read spell the accepted tree |
| XmlMachine.StepProgress | dm_target_implementation/PCLINUX/dm_target_com/ixml/src/ixmlparser.c:917-1048 | Each turn consumes text or leaves content state, so the loop ends on every input |
| XmlMachine.FileDoneAtEnd | dm_target_implementation/PCLINUX/dm_target_com/ixml/src/ixmlparser.c:2448-2513 | The parser reports the end of the text exactly when no byte is left |
| XmlText.CopyTokenUndoesEscapeIff | dm_target_implementation/PCLINUX/dm_target_com/ixml/src/ixmlparser.c:1238-1283 | In strict mode Parser_copyToken undoes copy_with_escape **iff** the string is non-empty and made of XML characters in shortest-form UTF-8; for every string and whatever follows |
| XmlText.CopyTokenUndoesEscape | dm_target_implementation/PCLINUX/dm_target_com/ixml/src/ixmlparser.c:1238-1283 | The same direction in strict and in relaxed mode |
| XmlText.FaithfulCopyIsWellFormed | dm_target_implementation/PCLINUX/dm_target_com/ixml/src/ixmlparser.c:1143-1230 | A strict copy is never longer than its source, and copies faithfully only well-formed strings |
| XmlText.WellFormedIsEncoding | dm_target_implementation/PCLINUX/dm_target_com/ixml/src/ixmlparser.c:376-477 | Well-formed strings are encodings of sequences of XML characters |
| XmlText.EncodeIsWellFormed | dm_target_implementation/PCLINUX/dm_target_com/ixml/src/ixmlparser.c:376-426 | Every encoding of XML characters is well formed |
| XmlText.EscapeHidesMarkup | dm_target_implementation/PCLINUX/dm_target_com/ixml/src/ixml.c:40-78 | No `<`, `>`, or quote survives escaping |
| XmlText.CopyWithEscape | dm_target_implementation/PCLINUX/dm_target_com/ixml/src/ixml.c:40-78 | The loop appends the escaped string to the buffer and keeps the buffer valid |
| XmlText.ReadChar | dm_target_implementation/PCLINUX/dm_target_com/ixml/src/ixmlparser.c:1143-1230 | The next character with its length: UTF-8, the five named entities, numeric references, and the strict and relaxed treatment of errors |
| XmlText.NumericReferenceIsRead | dm_target_implementation/PCLINUX/dm_target_com/ixml/src/ixmlparser.c:1184-1222 | Digits that denote an XML character, in either base and with any leading zeros, are read as that character, whatever follows |
| XmlText.ReferenceToAny | dm_target_implementation/PCLINUX/dm_target_com/ixml/src/ixmlparser.c:1184-1222 | And every XML character can be written so, in either base |
| XmlReference.SumIsWrapped | dm_target_implementation/PCLINUX/dm_target_com/ixml/src/ixmlparser.c:1187-1215 | The int that the digit loops add up is the number modulo 2^32, for every string of digits |
| XmlReference.SumDigits | dm_target_implementation/PCLINUX/dm_target_com/ixml/src/ixmlparser.c:1187-1215 | The loops over decimal and hexadecimal digits |
| XmlNames.IsCharInTable | dm_target_implementation/PCLINUX/dm_target_com/ixml/src/ixmlparser.c:266-287 | The binary search finds a character iff one of the ranges holds it, or it is above all of them and in the entry behind the table |
| XmlNames.NameCharsAreTables | dm_target_implementation/PCLINUX/dm_target_com/ixml/src/ixmlparser.c:309-325 | The name characters of the scanner are exactly those of the tables Letter and NameChar |
| XmlNames.IsNameCharSearch | dm_target_implementation/PCLINUX/dm_target_com/ixml/src/ixmlparser.c:309-325 | Parser_isNameChar answers so, but for characters above both tables that happen to lie in the memory behind them |
| XmlNames.LetterIsSorted | dm_target_implementation/PCLINUX/dm_target_com/ixml/src/ixmlparser.c:78-136 | The 207 ranges of the Letter table ascend and do not overlap, as the search needs |
| XmlNames.NameCharIsSorted | dm_target_implementation/PCLINUX/dm_target_com/ixml/src/ixmlparser.c:147-214 | And so do the 123 of the NameChar table |
| Utf8.DecodeOfEncode | dm_target_implementation/PCLINUX/dm_target_com/ixml/src/ixmlparser.c:376-477 | Decoding undoes encoding, with equal lengths, for every code point up to 2^31-1, whatever follows |
| Utf8.EncodeOfDecode | dm_target_implementation/PCLINUX/dm_target_com/ixml/src/ixmlparser.c:436-477 | Encoding undoes decoding exactly on the sequences in shortest form |
| Utf8.SequenceInside | dm_target_implementation/PCLINUX/dm_target_com/ixml/src/ixmlparser.c:436-477 | A complete sequence reads the same in both modes and stays inside the string |
| XmlParser.Parser.ParseDocument | dm_target_implementation/PCLINUX/dm_target_com/ixml/src/ixmlparser.c:917-1048 | The loop on the parser object accepts exactly when the state machine does, and the linked nodes it has built hold the accepted tree |
| XmlParser.Parser.ReadAndBuild | dm_target_implementation/PCLINUX/dm_target_com/ixml/src/ixmlparser.c:945-1031 | Every turn keeps the invariant on the real nodes: read top-down, the element stack spells the names from currentNodePtr up to the document |
| DomRoundTrip.ParseAndPrint | dm_target_implementation/PCLINUX/dm_target_com/ixml/src/ixml.c:412-428 | Text to linked nodes to text: printing the parsed document gives the printed form of the accepted tree |
| DomRoundTrip.PrintAndParse | dm_target_implementation/PCLINUX/dm_target_com/ixml/src/ixml.c:412-428 | Linked nodes to text to new linked nodes: a printable document is read back **iff** it has at most one root, and as the same document **iff** it also round-trips |
| DomRoundTrip.FinishedDocument | dm_target_implementation/PCLINUX/dm_target_com/ixml/src/ixmlparser.c:1033-1040 | What the printer sees of a finished document is what the parser was told |
| DomBuild.DomBuilder.OpenElement | dm_target_implementation/PCLINUX/dm_target_com/ixml/src/ixmlparser.c:777-839 | A new element is the last child of the old current node and the new current node; all other nodes keep their value |
| DomBuild.DomBuilder.AppendLeaf | dm_target_implementation/PCLINUX/dm_target_com/ixml/src/ixmlparser.c:964-1001 | Text or CDATA becomes the last child of the current node; only the document refuses it |
| DomBuild.DomBuilder.AddAttribute | dm_target_implementation/PCLINUX/dm_target_com/ixml/src/ixmlparser.c:743-769 | The current node gets one more attribute; nothing else changes |
| DomBuild.DomBuilder.IsDuplicateAttribute | dm_target_implementation/PCLINUX/dm_target_com/ixml/src/ixmlparser.c:717-735 | True iff the current node has an attribute of that name |
| DomBuild.DomBuilder.Leave | dm_target_implementation/PCLINUX/dm_target_com/ixml/src/ixmlparser.c:864-869 | The name must be that of the current node, whose parent becomes current |
| DomBuild.ElementOpened | dm_target_implementation/PCLINUX/dm_target_com/ixml/src/ixmlparser.c:821-838 | Appending a new element extends the path by one frame and leaves every finished subtree |
| DomBuild.LeafAppended | dm_target_implementation/PCLINUX/dm_target_com/ixml/src/ixmlparser.c:964-1001 | Appending a leaf extends the finished children of the current frame only |
| DomBuild.CurrentLeft | dm_target_implementation/PCLINUX/dm_target_com/ixml/src/ixmlparser.c:864-869 | Leaving an element adds it, with all it holds, to the finished children of its parent |
| DomBuild.DoneIsApart | dm_target_implementation/PCLINUX/dm_target_com/ixml/src/ixmlparser.c:917-1048 | The current node is never inside a finished subtree |
| XmlParser.Parser.GetNextNodeHere | dm_target_implementation/PCLINUX/dm_target_com/ixml/src/ixmlparser.c:2448-2513 | Reads one node and moves cursor, state and last element name as the scanner functions say |
| XmlParser.Parser.GetNextTokenHere | dm_target_implementation/PCLINUX/dm_target_com/ixml/src/ixmlparser.c:1517-1579 | Token, token buffer and cursor as specified, with savePtr on the start of the token |
| XmlParser.Parser.TokenLengthHere | dm_target_implementation/PCLINUX/dm_target_com/ixml/src/ixmlparser.c:1517-1579 | Length of the token at the cursor; savePtr only moves for `/>` |
| XmlParser.Parser.CopyTokenHere | dm_target_implementation/PCLINUX/dm_target_com/ixml/src/ixmlparser.c:1238-1283 | The decoded characters are appended to the token buffer, also when copying fails |
| XmlParser.Parser.ProcessContentHere | dm_target_implementation/PCLINUX/dm_target_com/ixml/src/ixmlparser.c:2056-2158 | Content: CDATA, comment, instruction, tag or text |
| XmlParser.Parser.ProcessCDSectHere | dm_target_implementation/PCLINUX/dm_target_com/ixml/src/ixmlparser.c:1976-2022 | A CDATA section up to `]]>`; a byte above 127 stops it |
| XmlParser.Parser.ProcessSTagHere | dm_target_implementation/PCLINUX/dm_target_com/ixml/src/ixmlparser.c:1842-1896 | A start tag and the look ahead that chooses the next state |
| XmlParser.Parser.ProcessETagHere | dm_target_implementation/PCLINUX/dm_target_com/ixml/src/ixmlparser.c:2167-2209 | An end tag with its closing bracket |
| XmlParser.Parser.ProcessAttributeHere | dm_target_implementation/PCLINUX/dm_target_com/ixml/src/ixmlparser.c:2327-2438 | An attribute with its checks |
| XmlParser.Parser.ProcessElementName | dm_target_implementation/PCLINUX/dm_target_com/ixml/src/ixmlparser.c:777-839 | Opens an element: refused for a second root, else pushed on stack and path |
| XmlParser.Parser.ProcessAttributeName | dm_target_implementation/PCLINUX/dm_target_com/ixml/src/ixmlparser.c:743-769 | Adds an attribute unless it is a duplicate |
| XmlParser.Parser.ETagVerification | dm_target_implementation/PCLINUX/dm_target_com/ixml/src/ixmlparser.c:848-873 | Closes the innermost element or refuses, with both checks of the source |
| XmlParser.Parser.SkipMiscHere | dm_target_implementation/PCLINUX/dm_target_com/ixml/src/ixmlparser.c:1486-1508 | Comments, instructions and white space are skipped; the cursor on failure is the one of the source |
| XmlParser.Parser.SkipPrologHere | dm_target_implementation/PCLINUX/dm_target_com/ixml/src/ixmlparser.c:1376-1406 | Declaration, miscellaneous items and document type |
| XmlParser.SkipStringAt | dm_target_implementation/PCLINUX/dm_target_com/ixml/src/ixmlparser.c:1293-1313 | The cursor moves past the first occurrence of the key, or to the end |
| XmlScan.FindIsFirst | dm_target_implementation/PCLINUX/dm_target_com/ixml/src/ixmlparser.c:1293-1313 | The search for a key finds its first occurrence, or there is none |
| XmlParser.SkipCommentAt | dm_target_implementation/PCLINUX/dm_target_com/ixml/src/ixmlparser.c:1416-1435 | Past a comment, which must not end in `--->` |
| XmlParser.SkipPIAt | dm_target_implementation/PCLINUX/dm_target_com/ixml/src/ixmlparser.c:1322-1346 | Past a processing instruction; an XML declaration is refused |
| XmlParser.SkipDocTypeAt | dm_target_implementation/PCLINUX/dm_target_com/ixml/src/ixmlparser.c:1442-1477 | Past a document type with nested brackets and quoted strings |
| XmlParser.NameLengthAt | dm_target_implementation/PCLINUX/dm_target_com/ixml/src/ixmlparser.c:1517-1579 | The loop over name characters |
| XmlParser.NoLessThanAt | dm_target_implementation/PCLINUX/dm_target_com/ixml/src/ixmlparser.c:2327-2438 | The scan of an attribute value for `<` |
| Membufs.Membuf.SetSize | dm_target_implementation/PCLINUX/dm_target_com/ixml/src/ixmlmembuf.c:51-96 | New capacity through the grow and the shrink path; which bytes survive |
| Membufs.Membuf.Assign | dm_target_implementation/PCLINUX/dm_target_com/ixml/src/ixmlmembuf.c:135-162 | The contents become the string, NUL and capacity invariant kept; writes through a null pointer iff the string is empty and nothing was ever allocated |
| Membufs.Membuf.Destroy | dm_target_implementation/PCLINUX/dm_target_com/ixml/src/ixmlmembuf.c:119-128 | Back to the empty buffer without memory |
| Membufs.Membuf.Insert | dm_target_implementation/PCLINUX/dm_target_com/ixml/src/ixmlmembuf.c:207-236 | Splices the string in, or refuses an index out of range and changes nothing |
| Membufs.Membuf.AppendStr | dm_target_implementation/PCLINUX/dm_target_com/ixml/src/ixmlmembuf.c:195-200 | Appends the string |
| Membufs.Membuf.Append | dm_target_implementation/PCLINUX/dm_target_com/ixml/src/ixmlmembuf.c:181-188 | Appends one byte |
| Membufs.MoveRight | dm_target_implementation/PCLINUX/dm_target_com/ixml/src/ixmlmembuf.c:207-236 | memmove to the right inside the buffer, last byte first |
| Membufs.InsertInPlace | dm_target_implementation/PCLINUX/dm_target_com/ixml/src/ixmlmembuf.c:207-236 | memmove, memcpy and terminator together are a splice |
| Membufs.Perform | dm_target_implementation/PCLINUX/dm_target_com/ixml/src/ixmlmembuf.c:51-236 | Any sequence of inserts, appends, assigns and clearings leaves what the same operations make of a plain string, or ends in the null-pointer write exactly when they say so |
| DomOps.AppendChildIff | dm_target_implementation/PCLINUX/dm_target_com/ixml/src/node.c:802-849 | Once its checks have passed, appendChild leaves ordered trees **iff** the new child differs from the parent and was detached or already its child |
| DomOps.InsertBeforeIff | dm_target_implementation/PCLINUX/dm_target_com/ixml/src/node.c:618-672 | The same for insertBefore, which must not get the new child as its own reference |
| DomOps.ReplaceChildIff | dm_target_implementation/PCLINUX/dm_target_com/ixml/src/node.c:694-733 | The same for replaceChild |
| DomOps.AppendKeepsTypes | dm_target_implementation/PCLINUX/dm_target_com/ixml/src/node.c:547-576 | A successful appendChild gives no text, CDATA or attribute node a child, no element a document or attribute node, and no document anything but an element |
| DomOps.InsertKeepsTypes | dm_target_implementation/PCLINUX/dm_target_com/ixml/src/node.c:547-576 | The same for insertBefore |
| DomOps.ReplaceKeepsTypes | dm_target_implementation/PCLINUX/dm_target_com/ixml/src/node.c:547-576 | The same for replaceChild |
| DomOps.AppendChildCorrect | dm_target_implementation/PCLINUX/dm_target_com/ixml/src/node.c:802-849 | In those cases the children become the other children followed by the new one; no other list changes |
| DomOps.InsertBeforeCorrect | dm_target_implementation/PCLINUX/dm_target_com/ixml/src/node.c:618-672 | In those cases the new child stands right before the reference child among the others |
| DomOps.ReplaceChildCorrect | dm_target_implementation/PCLINUX/dm_target_com/ixml/src/node.c:694-733 | In those cases the new child takes the place of the old one |
| DomOps.RemoveChildCorrect | dm_target_implementation/PCLINUX/dm_target_com/ixml/src/node.c:749-783 | The children lose exactly the one removed, which is detached; no other list changes |
| DomOps.ReplaceByItselfRemoves | dm_target_implementation/PCLINUX/dm_target_com/ixml/src/node.c:694-733 | Replacing a child by itself removes it |
| DomOps.AppendChildBreaks | dm_target_implementation/PCLINUX/dm_target_com/ixml/src/node.c:802-849 | In every other case no shape of ordered trees fits the links that are left |
| DomOps.InsertBeforeBreaks | dm_target_implementation/PCLINUX/dm_target_com/ixml/src/node.c:618-672 | Likewise for insertBefore |
| DomOps.ReplaceChildBreaks | dm_target_implementation/PCLINUX/dm_target_com/ixml/src/node.c:694-733 | Likewise for replaceChild |
| DomOps.MovedFromAnotherParent | dm_target_implementation/PCLINUX/dm_target_com/ixml/src/node.c:618-849 | A concrete case for all three: the checks let the only child of one parent pass, but moved to another parent it leaves no ordered trees |
| DomOps.IsAncestorIsExact | dm_target_implementation/PCLINUX/dm_target_com/ixml/src/node.c:491-513 | For a new child that may be moved, the ancestor check answers exactly whether the parent lies below it |
| DomOps.AncestorOfSibling | dm_target_implementation/PCLINUX/dm_target_com/ixml/src/node.c:491-513 | The check also answers yes for what lies below a later sibling |
| DomOps.IsAncestor | dm_target_implementation/PCLINUX/dm_target_com/ixml/src/node.c:491-513 | The recursion answers whether the node lies below the given one or below one of its later siblings |
| DomOps.AppendChild | dm_target_implementation/PCLINUX/dm_target_com/ixml/src/node.c:802-849 | Return code in every case; on success links and owner document as specified, on failure nothing changed |
| DomOps.InsertBefore | dm_target_implementation/PCLINUX/dm_target_com/ixml/src/node.c:618-672 | Return code in every case, a null reference child being an assertion; links changed on success only |
| DomOps.ReplaceChild | dm_target_implementation/PCLINUX/dm_target_com/ixml/src/node.c:694-733 | Return code in every case; links changed on success only |
| DomOps.RemoveChild | dm_target_implementation/PCLINUX/dm_target_com/ixml/src/node.c:749-783 | Return code in every case; links changed on success only |
| DomOps.FindLast | dm_target_implementation/PCLINUX/dm_target_com/ixml/src/node.c:836-842 | The loop over next siblings ends on the last child |
| Dom.UnlinkedAgrees | dm_target_implementation/PCLINUX/dm_target_com/ixml/src/node.c:749-783 | Unlinking a child keeps the four kinds of links those of ordered trees |
| Dom.InsertionAgrees | dm_target_implementation/PCLINUX/dm_target_com/ixml/src/node.c:618-849 | Linking in a detached node that is no ancestor keeps them so |
| Dom.ForestIsLocallyLinked | dm_target_implementation/PCLINUX/dm_target_com/ixml/src/node.c:618-849 | Neighbouring links agree in every forest |
| DomSearch.GetElementsByTagName | dm_target_implementation/PCLINUX/dm_target_com/ixml/src/node.c:1458-1477 | The list holds the matches of the subtree in document order |
| DomSearch.GetElementsByTagNameRecursive | dm_target_implementation/PCLINUX/dm_target_com/ixml/src/node.c:1426-1448 | The list grows by the matches among the node, what is below it and its later siblings |
| DomSearch.SearchIsExact | dm_target_implementation/PCLINUX/dm_target_com/ixml/src/node.c:1427-1477 | A node is in the result iff it is an element of that name, or of any for `*`, and is the root of the search or lies below it; none occurs twice |
| DomSearch.SearchIsOrdered | dm_target_implementation/PCLINUX/dm_target_com/ixml/src/node.c:1427-1477 | Of two results the first is above the second, or in an earlier subtree of a node above both |
| DomSearch.PreorderMembers | dm_target_implementation/PCLINUX/dm_target_com/ixml/src/node.c:1427-1448 | Document order lists a node and exactly what lies below it |
| DomSearch.PreorderOnce | dm_target_implementation/PCLINUX/dm_target_com/ixml/src/node.c:1427-1448 | Document order lists no node twice |
| NodeLists.AddToNodeList | dm_target_implementation/PCLINUX/dm_target_com/ixml/src/nodeList.c:90-134 | The list gets the node at its end |
| NodeLists.Length | dm_target_implementation/PCLINUX/dm_target_com/ixml/src/nodeList.c:143-156 | The number of cells: 1 for the empty list that has a cell |
| NodeLists.Item | dm_target_implementation/PCLINUX/dm_target_com/ixml/src/nodeList.c:57-82 | The item at the index, or null beyond the end |
| DomPrint.PrintDomTreeRecursive | dm_target_implementation/PCLINUX/dm_target_com/ixml/src/ixml.c:86-177 | Appends to the buffer the text of the node and of the siblings the printer goes on to; no node changes |
| DomPrint.PrintAttributes | dm_target_implementation/PCLINUX/dm_target_com/ixml/src/ixml.c:125-136 | The attribute branch of the printer |
| DomPrint.DocumentToString | dm_target_implementation/PCLINUX/dm_target_com/ixml/src/ixml.c:412-428 | The prolog followed by the text of the children of the document |
| DomPrint.DomTreetoString | dm_target_implementation/PCLINUX/dm_target_com/ixml/src/ixml.c:259-319 | The text of one node without its siblings, for every type of node |
| DomPrint.NodeToString | dm_target_implementation/PCLINUX/dm_target_com/ixml/src/ixml.c:436-452 | The same as a string |
| DomWalk.ForestIsSiblings | dm_target_implementation/PCLINUX/dm_target_com/ixml/src/ixml.c:87-177 | On ordered trees the walk over first children and next siblings finds exactly the node and its later siblings |
| DomWalk.SameForest | dm_target_implementation/PCLINUX/dm_target_com/ixml/src/ixml.c:87-177 | Parent and previous-sibling links do not matter to the walk |
| DomClone.PrintDocumentAndCopy | dm_target_implementation/PCLINUX/dm_target_com/ixml/src/node.c:1170-1186 | A deep clone of a linked document, printed, gives exactly the text of the document, for every number of children |
| DomClone.PrintNodeAndCopy | dm_target_implementation/PCLINUX/dm_target_com/ixml/src/node.c:1209-1302 | A deep clone of any other linked node, printed, gives exactly the text of the node |
| DomClone.CloneNode | dm_target_implementation/PCLINUX/dm_target_com/ixml/src/node.c:1209-1302 | A deep or shallow clone is a new, well-linked tree without parent and owner document, equal to the part of the source that the walk reaches; it can be printed and cloned in turn |
| DomClone.CloneDocument | dm_target_implementation/PCLINUX/dm_target_com/ixml/src/node.c:1173-1186 | Whatever their number, a walk over the new document finds copies of the children of the source; it is a tree iff at most one child is copied |
| DomClone.LaterChildrenHaveNoParent | dm_target_implementation/PCLINUX/dm_target_com/ixml/src/node.c:1170-1182 | With two children or more no shape of ordered trees fits the cloned document |
| DomClone.CloneNodeTreeRecursive | dm_target_implementation/PCLINUX/dm_target_com/ixml/src/node.c:1106-1201 | The recursion builds fresh nodes, linked as siblings, that are a copy of the node and of the siblings it goes on to |
| DomClone.SetSiblingNodesParent | dm_target_implementation/PCLINUX/dm_target_com/ixml/src/node.c:1088-1098 | Every later sibling gets the parent of the first |
| DomClone.CopyPrintsTheSame | dm_target_implementation/PCLINUX/dm_target_com/ixml/src/node.c:1107-1302 | The same for trees as values |
| XmlTree.ClonePrintsTheSame | dm_target_implementation/PCLINUX/dm_target_com/ixml/src/node.c:1106-1201 | Clone and printer stop at the same sibling, for every list of trees |
| XmlTree.CloneIsIdentity | dm_target_implementation/PCLINUX/dm_target_com/ixml/src/node.c:1106-1201 | A deep clone equals its source iff nothing follows the first text or CDATA node anywhere |
| Md5.Context.Update | dm_com/src/md5.c:214-246 | The context stands for the old message followed by the data: state, tail in the buffer and both counters, for any split |
| Md5.Context.Final | dm_com/src/md5.c:248-297 | The digest of sections 3.1 to 3.5 of RFC 1321 of the whole message; the context is wiped |
| Md5.DigestOfFragments | dm_com/src/md5.c:203-297 | The digest of the concatenation, for every list of fragments |
| Md5.CountersAdd | dm_com/src/md5.c:219-222 | lo and hi with their carry count bytes modulo 2^61 |
| Md5.LengthField | dm_com/src/md5.c:267-275 | The two counters written out are the length in bits modulo 2^64, low-order byte first |
| Md5.Context.Body | dm_com/src/md5.c:96-201 | The do-while loop folds the compression function over complete blocks |
| Md5.DoBlock | dm_com/src/md5.c:109-190 | 64 unrolled steps are the four rounds of section 3.4 of RFC 1321 |
| Md5.Round1 | dm_com/src/md5.c:115-131 | Unrolled steps 1 to 16 are those of the standard, with its table, order and shifts |
| Md5.Round2 | dm_com/src/md5.c:133-149 | Unrolled steps 17 to 32 |
| Md5.Round3 | dm_com/src/md5.c:151-167 | Unrolled steps 33 to 48, with both groupings of H |
| Md5.Round4 | dm_com/src/md5.c:169-185 | Unrolled steps 49 to 64 |
| Md5.FFunc | dm_com/src/md5.c:54 | The optimised F is that of the standard |
| Md5.GFunc | dm_com/src/md5.c:55 | The optimised G is that of the standard |
| Md5.PaddedIsInjective | dm_com/src/md5.c:248-280 | Messages below 2^61 bytes with the same padded form are equal |
| Blocks.FoldAppend | dm_com/src/md5.c:224-245 | Folding a longer message: first the old complete blocks, then tail and new data |
| Sha1.Transform | dm_target_implementation/PCLINUX/dm_target_nat/stun/src/sha1-internal.c:180-233 | The in-place circular schedule and the argument-rotated operations compute the state of section 7 of FIPS PUB 180-1, for every state and block |
| Sha1.Operations1 | dm_target_implementation/PCLINUX/dm_target_nat/stun/src/sha1-internal.c:202-206 | Operations 0 to 19 |
| Sha1.Operations2 | dm_target_implementation/PCLINUX/dm_target_nat/stun/src/sha1-internal.c:207-211 | Operations 20 to 39 |
| Sha1.Operations3 | dm_target_implementation/PCLINUX/dm_target_nat/stun/src/sha1-internal.c:212-216 | Operations 40 to 59 |
| Sha1.Operations4 | dm_target_implementation/PCLINUX/dm_target_nat/stun/src/sha1-internal.c:217-221 | Operations 60 to 79 |
| Sha1.FourSlots | dm_target_implementation/PCLINUX/dm_target_nat/stun/src/sha1-internal.c:144-145 | The four slots read hold words t-3, t-8, t-14 and t-16 |
| Sha1.SwappedIsBig | dm_target_implementation/PCLINUX/dm_target_nat/stun/src/sha1-internal.c:138-143 | The byte swap of a little-endian word is the big-endian word |
| Sha1.ChoiceIsCh | dm_target_implementation/PCLINUX/dm_target_nat/stun/src/sha1-internal.c:148-153 | The choice form of R0 and R1 is that of the standard |
| Sha1.MajorityIsMaj | dm_target_implementation/PCLINUX/dm_target_nat/stun/src/sha1-internal.c:156-159 | The majority form of R3 is that of the standard |
| Sha1.Context.Update | dm_target_implementation/PCLINUX/dm_target_nat/stun/src/sha1-internal.c:252-277 | The context stands for the old message followed by the data, for every length below 2^32-64 |
| Sha1.CountersAdd | dm_target_implementation/PCLINUX/dm_target_nat/stun/src/sha1-internal.c:261-264 | The two 32-bit counters with their carry hold the bit length modulo 2^64 |
| Sha1.Context.PadByUpdates | dm_target_implementation/PCLINUX/dm_target_nat/stun/src/sha1-internal.c:287-298 | The zero-feeding loop ends 8 bytes before a block boundary, and what was fed is exactly the padding of section 4 of FIPS PUB 180-1 |
| Sha1.Context.Final | dm_target_implementation/PCLINUX/dm_target_nat/stun/src/sha1-internal.c:282-308 | The digest of the whole message; the context is wiped |
| Hmac.Sha1Vector | dm_target_implementation/PCLINUX/dm_target_nat/stun/src/sha1-internal.c:35-48 | The digest of the concatenated areas, even when the result overwrites one of them |
| Hmac.HmacSha1Vector | dm_target_implementation/PCLINUX/dm_target_nat/stun/src/sha1.c:31-96 | Refused above 5 fragments; else HMAC of section 2 of RFC 2104 on their concatenation, for short and long keys, although mac holds the inner digest as well; what results when a short key is in mac itself |
| Hmac.HmacSha1 | dm_target_implementation/PCLINUX/dm_target_nat/stun/src/sha1.c:108-112 | The same for one area |
| StunRoundTrip.RoundTrip | dm_target_implementation/PCLINUX/dm_target_nat/stun/src/dm_lib_stun.c:224-779 | For every encodable message and every password: the parser reads back what was written **iff** UNKNOWN-ATTRIBUTES and XOR-ONLY are absent and no string fills its 256 bytes; a reason may |
| StunRoundTrip.ReadsBack | dm_target_implementation/PCLINUX/dm_target_nat/stun/src/dm_lib_stun.c:224-779 | What is read back: true length, IPv4 addresses, binding without text, integrity iff there is a password |
| StunRoundTrip.UnreadableIsRefused | dm_target_implementation/PCLINUX/dm_target_nat/stun/src/dm_lib_stun.c:171-192 | A user name, password or server name of 256 bytes makes the parser refuse its own encoding |
| StunRoundTrip.XorOnlyNotReadBack | dm_target_implementation/PCLINUX/dm_target_nat/stun/src/dm_lib_stun.c:591-596 | With XOR-ONLY, written without a length, the message is never read back |
| StunRoundTrip.EvenUnknownIsRefused | dm_target_implementation/PCLINUX/dm_target_nat/stun/src/dm_lib_stun.c:577-588 | An unknown-attributes list of even size is refused: the length written is no multiple of 4 |
| StunRoundTrip.OddUnknown | dm_target_implementation/PCLINUX/dm_target_nat/stun/src/dm_lib_stun.c:577-596 | One of odd size takes the two bytes that follow it: if these are XOR-ONLY the message is read back without it and with the first half of the list, else it is refused |
| StunRoundTrip.IntegrityIsOverTheRest | dm_target_implementation/PCLINUX/dm_target_nat/stun/src/dm_lib_stun.c:760-777 | With a password the message ends in the HMAC of all earlier bytes, and the length field counts what follows the header |
| StunRoundTrip.BodyFits | dm_target_implementation/PCLINUX/dm_target_nat/stun/src/dm_lib_stun.c:635-779 | Every encoding takes at most 1466 bytes, below the 2048 of the buffers |
| StunRoundTrip.WrittenInOrder | dm_target_implementation/PCLINUX/dm_target_nat/stun/src/dm_lib_stun.c:648-758 | The attributes are written in the order of the encoder, each at most once, the integrity last |
| StunFormat.ParseJoin | dm_target_implementation/PCLINUX/dm_target_nat/stun/src/dm_lib_stun.c:249-508 | The parser is compositional: leading attributes are applied in order, then the rest is parsed |
| StunFormat.AcceptsIff | dm_target_implementation/PCLINUX/dm_target_nat/stun/src/dm_lib_stun.c:224-511 | For every datagram and message: accepted with this result **iff** the header announces exactly the bytes that follow it and these are attributes that take the blank message of the header to the result |
| StunFormat.WrongLengthIsRefused | dm_target_implementation/PCLINUX/dm_target_nat/stun/src/dm_lib_stun.c:233-247 | A datagram whose length disagrees with its header is refused, whatever its attributes |
| StunFormat.RefusedIff | dm_target_implementation/PCLINUX/dm_target_nat/stun/src/dm_lib_stun.c:70-221 | Which attributes make the parser give up, and which it copies out of bounds, by type and size in numbers |
| StunFormat.OnlyItsField | dm_target_implementation/PCLINUX/dm_target_nat/stun/src/dm_lib_stun.c:279-504 | An attribute that is read changes its own field only; texts and integrity are taken byte by byte |
| StunRoundTrip.AddressWrittenBack | dm_target_implementation/PCLINUX/dm_target_nat/stun/src/dm_lib_stun.c:70-103 | An address that was read is written as the bytes it was read from |
| StunRoundTrip.ErrorWrittenBack | dm_target_implementation/PCLINUX/dm_target_nat/stun/src/dm_lib_stun.c:124-145 | So is an error |
| StunFormat.AcceptsIffTiled | dm_target_implementation/PCLINUX/dm_target_nat/stun/src/dm_lib_stun.c:242-277 | A body is accepted with a given result iff attributes that give this result tile it exactly |
| StunFormat.IgnoredAttribute | dm_target_implementation/PCLINUX/dm_target_nat/stun/src/dm_lib_stun.c:498-504 | An attribute of unknown type above 0x7FFF at any attribute boundary changes nothing but the length |
| StunCodec.ParseMessage | dm_target_implementation/PCLINUX/dm_target_nat/stun/src/dm_lib_stun.c:224-511 | The loop on the buffer computes the parse result |
| StunCodec.ParseAtrAddress | dm_target_implementation/PCLINUX/dm_target_nat/stun/src/dm_lib_stun.c:70-103 | Eight bytes of IPv4 family, or refused |
| StunCodec.ParseAtrError | dm_target_implementation/PCLINUX/dm_target_nat/stun/src/dm_lib_stun.c:124-145 | Pad, class, number and reason up to 256 bytes, whose NUL then falls on a byte that is 0; refused from 262 bytes on; undefined where the copy leaves the reason |
| StunCodec.ParseAtrUnknown | dm_target_implementation/PCLINUX/dm_target_nat/stun/src/dm_lib_stun.c:147-168 | The loop over the listed types |
| StunCodec.ParseAtrString | dm_target_implementation/PCLINUX/dm_target_nat/stun/src/dm_lib_stun.c:171-192 | Shorter than 256 bytes and a multiple of 4, or refused |
| StunCodec.ParseAtrIntegrity | dm_target_implementation/PCLINUX/dm_target_nat/stun/src/dm_lib_stun.c:195-221 | Exactly 20 bytes, or refused |
| StunCodec.ParseAtrChangeRequest | dm_target_implementation/PCLINUX/dm_target_nat/stun/src/dm_lib_stun.c:105-122 | Exactly 4 bytes, or refused |
| StunCodec.EncodeMessage | dm_target_implementation/PCLINUX/dm_target_nat/stun/src/dm_lib_stun.c:635-779 | Writes the encoding into the buffer, never past 2048 bytes |
| StunCodec.PatchLength | dm_target_implementation/PCLINUX/dm_target_nat/stun/src/dm_lib_stun.c:760-766 | The length is written over the zero left for it; nothing else changes |
| StunCodec.SignMessage | dm_target_implementation/PCLINUX/dm_target_nat/stun/src/dm_lib_stun.c:768-777 | Appends the integrity attribute with the HMAC of what was written |
| StunCodec.PutAddress4 | dm_target_implementation/PCLINUX/dm_target_nat/stun/src/dm_lib_stun.c:539-550 | One address attribute, with IPv4 family whatever the structure says |
| StunCodec.PutError | dm_target_implementation/PCLINUX/dm_target_nat/stun/src/dm_lib_stun.c:561-574 | One error attribute |
| StunCodec.PutString | dm_target_implementation/PCLINUX/dm_target_nat/stun/src/dm_lib_stun.c:599-608 | One string attribute |
| StunCodec.PutUnknown | dm_target_implementation/PCLINUX/dm_target_nat/stun/src/dm_lib_stun.c:577-588 | The list of unknown types with the length the source writes |
| RateLimiter.WindowBound | dm_target_implementation/PCLINUX/dm_target_com/src/DM_COM_ConnectionSecurity.c:103-172 | With fixed limits and a clock that does not go back, no window of `period` seconds holds more than `max` admissions, for every run |
| RateLimiter.RefusedAsConfigured | dm_target_implementation/PCLINUX/dm_target_com/src/DM_COM_ConnectionSecurity.c:115-165 | The answer in the configured values: refused **iff** at least max times (50 when max is 100 or more) are younger than the configured period, or 50 than an hour when nothing is configured |
| RateLimiter.ConfiguredWindowBound | dm_target_implementation/PCLINUX/dm_target_com/src/DM_COM_ConnectionSecurity.c:103-172 | The window bound for runs under a fixed configuration, in its values |
| RateLimiter.ConfiguredAnswer | dm_target_implementation/PCLINUX/dm_target_com/src/DM_COM_ConnectionSecurity.c:103-172 | With the clock at the period or later, a run refuses **iff** that many of all its admissions are too young |
| RateLimiter.YoungIsCount | dm_target_implementation/PCLINUX/dm_target_com/src/DM_COM_ConnectionSecurity.c:147-152 | The counting loop counts the places that hold young times |
| RateLimiter.RegisterSuffices | dm_target_implementation/PCLINUX/dm_target_com/src/DM_COM_ConnectionSecurity.c:143-152 | The 100-slot register decides as the full history does; from time `period` on the initial zeros do not count |
| RateLimiter.RegisterAgreesIff | dm_target_implementation/PCLINUX/dm_target_com/src/DM_COM_ConnectionSecurity.c:149-156 | Register and history agree iff the clock has reached `period` or the history alone refuses |
| RateLimiter.EarlyRequestsAreRefused | dm_target_implementation/PCLINUX/dm_target_com/src/DM_COM_ConnectionSecurity.c:52-57 | Before the clock reaches `period` every request is refused |
| RateLimiter.LimitsOf | dm_target_implementation/PCLINUX/dm_target_com/src/DM_COM_ConnectionSecurity.c:120-142 | The maximum in force is always below the size of the register |
| RateLimiter.ConnectionFreqArray.constructor | dm_target_implementation/PCLINUX/dm_target_com/src/DM_COM_ConnectionSecurity.c:52-57 | All slots are 0 |
| RateLimiter.ConnectionFreqArray.NewConnectionRequestAllowed | dm_target_implementation/PCLINUX/dm_target_com/src/DM_COM_ConnectionSecurity.c:73-89 | The shift in place records the admission and drops the oldest |
| RateLimiter.ConnectionFreqArray.MaxConnectionPerPeriodReached | dm_target_implementation/PCLINUX/dm_target_com/src/DM_COM_ConnectionSecurity.c:103-172 | The counting loop answers whether `max` recorded times are younger than `period`, with the limits of each configuration case |
| TimeoutDiscovery.AtMostFortyProbes | dm_target_implementation/PCLINUX/dm_target_nat/stun/src/dm_stun.c:862-978 | For every pattern of replies the search stops after at most 40 probes |
| TimeoutDiscovery.FortyProbesHappen | dm_target_implementation/PCLINUX/dm_target_nat/stun/src/dm_stun.c:862-978 | The bound is reached for a range of 39 seconds |
| TimeoutDiscovery.ChosenIsSafe | dm_target_implementation/PCLINUX/dm_target_nat/stun/src/dm_stun.c:2689-2704 | The chosen period lies in the range and, above the minimum, strictly below the longest interval that was answered |
| TimeoutDiscovery.ChosenExactly | dm_target_implementation/PCLINUX/dm_target_nat/stun/src/dm_stun.c:2689-2704 | Above the minimum, the chosen period is two and a half steps, rounded down, and 5 seconds below the interval that would have come next; it is the minimum **iff** that margin leaves nothing above it |
| TimeoutDiscovery.StepIsTwentieth | dm_target_implementation/PCLINUX/dm_target_nat/stun/src/dm_stun.c:862-870 | The step is a twentieth of the range rounded down, at least a second |
| TimeoutDiscovery.MaximumIsNotChosen | dm_target_implementation/PCLINUX/dm_target_nat/stun/src/dm_stun.c:2689-2704 | From a proper range the maximum is never chosen |
| TimeoutDiscovery.ReversedLimits | dm_target_implementation/PCLINUX/dm_target_nat/stun/src/dm_stun.c:862-978 | With minimum above maximum there is one probe and the maximum is the result |
| TimeoutDiscovery.EndIsUnique | dm_target_implementation/PCLINUX/dm_target_nat/stun/src/dm_stun.c:862-974 | The replies decide where the search ends |
| TimeoutDiscovery.ThreadData.Discover | dm_target_implementation/PCLINUX/dm_target_nat/stun/src/dm_stun.c:854-978 | The loop ends as the replies decide; nTimeout and g_timeout as the source sets them, both untouched for equal limits |
| UdpFilter.TimeStampGrows | dm_target_implementation/PCLINUX/dm_target_nat/stun/src/dm_stun.c:1198-1203 | Over any run the recorded timestamp never decreases |
| UdpFilter.TimeStampIsLatest | dm_target_implementation/PCLINUX/dm_target_nat/stun/src/dm_stun.c:1198-1203 | It is the latest of all timestamps received |
| UdpFilter.PassesIff | dm_target_implementation/PCLINUX/dm_target_nat/stun/src/dm_stun.c:1198-1231 | Over any run, a request passes **iff** its timestamp is neither negative nor below any earlier one and its identifier differs from that of the last earlier request of which this held (from 0 if none) |
| UdpFilter.NewRequestPasses | dm_target_implementation/PCLINUX/dm_target_nat/stun/src/dm_stun.c:1198-1231 | A timestamp later than all before it, with an unused identifier other than 0, always passes |
| UdpFilter.NeverTwiceIff | dm_target_implementation/PCLINUX/dm_target_nat/stun/src/dm_stun.c:1198-1231 | For any set of possible requests: no run passes one of them twice **iff** different ones that can pass have different timestamps |
| UdpFilter.PassedTwice | dm_target_implementation/PCLINUX/dm_target_nat/stun/src/dm_stun.c:1198-1231 | A request passes twice only if a different one with the same timestamp passed in between |
| UdpFilter.NonePassesTwice | dm_target_implementation/PCLINUX/dm_target_nat/stun/src/dm_stun.c:1198-1231 | When different requests have different timestamps none passes twice |
| UdpFilter.SharedTimeStampsDefeatTheFilter | dm_target_implementation/PCLINUX/dm_target_nat/stun/src/dm_stun.c:1198-1231 | Two requests sharing a timestamp do pass again: a concrete run |
| UdpFilter.FirstIdentifierZero | dm_target_implementation/PCLINUX/dm_target_nat/stun/src/dm_stun.c:1203-1206 | Identifier 0 never passes before another one was remembered |
| UdpFilter.StunThread.OnUdpRequest | dm_target_implementation/PCLINUX/dm_target_nat/stun/src/dm_stun.c:1195-1232 | The engine is asked iff the request is new and the limiter does not refuse; the admission is recorded exactly then |

## Left out

- Namespaces: the functions on prefixes and namespace URIs are one arbitrary outcome for each attribute of a run, consulted only once a prefix or `xmlns` has been read.
- XmlText.ReadChar: when the digits of a numeric reference run up to the end of the text the source reads on behind the NUL; here the reference is unresolved.
- XmlParser.Parser.TokenLengthHere: what lies in memory behind the two tables of name characters is taken not to match (see XmlNames.IsNameCharSearch).
- Token buffer and last element name of the parser: held as their contents, not as membufs; the element stack is a sequence, not a linked list.
- XmlParser.Parser.ProcessCDSectHere: when fewer than 3 bytes follow the character that stops the section, the source moves the cursor beyond the NUL; here it stops at the end.
- DomBuild.DomBuilder.AddAttribute: attributes are a list of names and values in their node, so that their own links, and the loops of setAttributeNode, isDuplicateAttribute, printer and cloner over these links, are not modelled.
- Processing-instruction, comment and entity nodes: the library never creates them, and they do not occur among the nodes that are printed, cloned or searched.
- XmlRoundTrip.RoundTrip: covers names that are ASCII and without colon, attributes other than `xmlns` with distinct names, and CDATA sections of ASCII characters.
- StunCodec.ParseAtrError: a value of fewer than 4 bytes, or of 261, is copied past the end of the reason; what the message then holds depends on the layout of memory and is not modelled.
- StunCodec.ParseMessage: what the message holds when parsing fails is not modelled.
- StunRoundTrip.RoundTrip: leaves open messages with an odd number of unknown types right before a text of 4 or 8 bytes that itself begins with the length of a source address or an integrity.
- Sha1.Context.Update: lengths from 2^32-64 on wrap around in the source and are excluded.
- Zero padding of the signed STUN message (section 11.2.8 of RFC 3489): the source does not do it; the HMAC is over the actual bytes.
- TimeoutDiscovery.ThreadData.Discover: intervals are unbounded integers; overflow beyond the range of C's int is not modelled, and the other thread is the pattern of replies.
- UdpFilter.StunThread.OnUdpRequest: whether the engine opens the session, and the authentication of the datagram before it, are not modelled.
- The STUN test server, NAT type detection, random identifiers, credentials, sockets, threads, HTTP, D-Bus, files, tracing, allocation failure and freeing: plumbing around the cores.
