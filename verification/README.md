# Verified models of the XML parser and the containers under it

This project models, in Dafny, the hard parts of two C libraries kept in the repository:
expat-lite (an XML parser that is handed its input in pieces) and GLib 1.2.8.

- **Scanning** (XmlTok, XmlStability, XmlScanners, XmlChars, XmlSyntax, XmlTags). The scanners of
  xmltok_impl.c for any encoding whose characters take at least one byte each: comments, processing
  instructions, tags, references, content, CDATA sections, attribute values and the tokens of the
  prolog. A complete token does not change when more bytes follow; and the scanner of content finds
  markup exactly where the grammar of XML 1.0 has it.
- **What is reported** (XmlReferences, XmlReports). From the grammar alone: which documents and
  entities are accepted, with which error the others are refused, and what the handlers are told of
  the text, the markup, the references and what they stand for. The parser does exactly that,
  however its input is cut.
- **Parsing in pieces** (XmlContent, XmlNesting, XmlChunks, XmlChunkRuns, XmlParser, XmlAscii). The
  processors for content, CDATA sections and the epilog, with entity expansion, and the buffer of
  XML_Parse, XML_ParseBuffer and XML_GetBuffer. Cutting a document into pieces changes neither its
  acceptance nor its events. For an external parsed entity that is false of the code: it holds
  exactly when no cut falls inside a CDATA section.
- **Content models** (XmlElementDecl). The handlers of xmlrole.c with their one counter, and the
  connectors of prologProcessor, accept exactly the element type declarations of sections 3.2 to
  3.2.2 of XML 1.0.
- **Attributes** (XmlAttributes, XmlAttributePass, XmlGetAtts, XmlTagAttributes, XmlUtf8). Values are
  normalised in one pass over nested entities; the result is that of the two passes of section 3.3.3
  of XML 1.0. getAtts finds the attributes the grammar has in a tag, and a value it marks as
  normalized may be copied.
  Both are false where a malformed character swallows spaces, which the scanners allow; each is
  proved with the condition that is necessary and sufficient, and shown false at a tag.
- **Balanced trees** (AvlTree, AvlRuns, GTree). The tree of gtree.c rebalances from stored balances
  alone; every run of insertions and removals keeps it an AVL tree and a finite map.
- **Chunk allocator** (MemChunk). No two atoms handed out by gmem.c overlap, and an area is released
  or used anew only when it holds no atom, live or freed.
- **Calendar** (Calendar, GDate). The closed forms of gdate.c between day numbers and dates are
  inverse to each other and agree with the calendar as a succession of days; the weekday of a day
  number is that of its date.
- **Hooks and main loop** (HookRuns, GHook, MainLoop). A traversal of a hook list calls every hook
  that stays, once and in order, while callbacks change the list; the main loop queues exactly the
  most urgent of the sources that are ready, dispatches those whose turn comes before they are
  destroyed, and keeps or destroys each on its own answer.
- **Namespaces and contexts** (Namespaces, Context). The records of addBinding: a tag's declarations
  are in force inside its element and undone after it, and every record is in one chain. What
  getContext writes for an external entity's parser, setContext reads back.
- **String pool** (StringPool). Over any run of operations between two clearings no finished string
  that is not empty moves or changes.
- **Name table** (HashTable). The open addressing of hashtable.c, through every doubling, answers what
  a map answers, and its probes end.
- **Character conversion** (Utf16). UTF-16 text becomes UTF-8, whole characters at a time, however
  small the buffers it is converted into.

Functions say what a piece of C code computes; methods and classes with the C code's loops, fields
and links are proved to compute them; lemmas say what that means. Line numbers below are those of
the repository's files.

Where the code and its comments disagree the model follows the code: the balance of a tree node is
its right height minus its left (glib/gtree.c:733), not the opposite (glib/gtree.c:45).

## Model

| member | source | states |
|---|---|---|
| `XmlStability.ContentTokStable` | expat-lite/xmltok_impl.c:804-899 | a complete content token is the same, with the same end, whatever bytes follow the buffer; a run of data characters can only grow or turn out to end in the forbidden "]]>" |
| `XmlStability.ContentCharsGrow` | expat-lite/xmltok_impl.c:850-899 | a run of data characters in a longer buffer ends no earlier, and where it ended is where it can be taken up again |
| `XmlStability.CdataTokStable` | expat-lite/xmltok_impl.c:325-400 | the same for tokens inside a CDATA section |
| `XmlStability.PrologTokStable` | expat-lite/xmltok_impl.c:991-1217 | the same for the tokens of the prolog and the epilog; only white space can grow |
| `XmlStability.LtStable` | expat-lite/xmltok_impl.c:705-802 | a tag, comment, processing instruction or CDATA opener found in a buffer is found in every extension of it |
| `XmlStability.AttNameStable` | expat-lite/xmltok_impl.c:545-702 | the scan of a tag from inside an attribute name, through values and their references, is not changed by more bytes |
| `XmlStability.ContentRunJoins` | expat-lite/xmltok_impl.c:850-899 | scanning a run of data characters in two pieces finds the same characters as scanning it at once |
| `XmlStability.CdataRunJoins` | expat-lite/xmltok_impl.c:370-400 | the same inside a CDATA section |
| `XmlStability.WhiteRunJoins` | expat-lite/xmltok_impl.c:1034-1056 | the same for white space between markup, which is never cut between CR and LF |
| `XmlScanners.ContentTokLoop` | expat-lite/xmltok_impl.c:804-848 | the byte loop computes the content token |
| `XmlScanners.ContentCharsLoop` | expat-lite/xmltok_impl.c:850-899 | the byte loop over data characters computes the run and finds "]]>" |
| `XmlScanners.CdataSectionTokLoop` | expat-lite/xmltok_impl.c:325-400 | the byte loop computes the CDATA token |
| `XmlScanners.LtLoop` | expat-lite/xmltok_impl.c:705-802 | the byte loop over a start tag's name computes the scan of the tag |
| `XmlScanners.AttsLoop` | expat-lite/xmltok_impl.c:545-702 | the nested byte loops over attributes compute the scan of the rest of the tag |
| `XmlScanners.EndTagLoop` | expat-lite/xmltok_impl.c:403-447 | the byte loop computes the scan of an end tag |
| `XmlScanners.RefLoop` | expat-lite/xmltok_impl.c:515-541 | the byte loop computes the scan of a reference |
| `XmlScanners.CommentLoop` | expat-lite/xmltok_impl.c:115-149 | the byte loop computes the scan of a comment, with "--" only before ">" |
| `XmlScanners.PiLoop` | expat-lite/xmltok_impl.c:244-303 | the byte loop computes the scan of a processing instruction and refuses "xml" in any other case as its target |
| `XmlChars.CharRefNumberIs` | expat-lite/xmltok_impl.c:1480-1518 | a character reference yields the number its digits denote exactly when that number is a Char (section 2.2 of XML 1.0), however many digits there are |
| `XmlChars.HexNumberIs` | expat-lite/xmltok_impl.c:1486-1507 | leaving the digit loop early loses no number in range |
| `XmlChars.ScanCharRefNumber` | expat-lite/xmltok_impl.c:1480-1518 | the digit loops compute that number |
| `XmlChars.CheckIsXmlChar` | expat-lite/xmltok.c:1092-1107 | the check of a character number is the Char production |
| `XmlTags.MarkupIffFound` | expat-lite/xmltok_impl.c:705-848 | from a place in content the scanner finds a start or empty-element tag with or without attributes, an end tag, a comment, a processing instruction, an XML declaration, a CDATA opener or a reference, up to some byte, if and only if the bytes up to there are that piece of markup in the grammar |
| `XmlTags.FoundTag` | expat-lite/xmltok_impl.c:705-802 | what is found behind "<" and a name start character is a tag of the grammar, with its name, its attributes and its end; the token says whether the element is empty and whether there are attributes |
| `XmlTags.TagFound` | expat-lite/xmltok_impl.c:545-802 | every tag of the grammar is found, with that token |
| `XmlTags.FoundValue` | expat-lite/xmltok_impl.c:597-640 | a value is scanned to its closing quote over characters and references, without "<" |
| `XmlSyntax.FoundRef` | expat-lite/xmltok_impl.c:449-541 | what is found as a reference is "&", a name and ";", or "&#" or "&#x", digits and ";" |
| `XmlSyntax.FoundComment` | expat-lite/xmltok_impl.c:115-149 | what is found as a comment ends at the first "--", which is followed by ">" |
| `XmlSyntax.FoundIsPi` | expat-lite/xmltok_impl.c:244-303 | what is found as a processing instruction has a name for its target, which is "xml" exactly for a declaration and never in another case, and ends at the first "?>" |
| `XmlSyntax.PiFound` | expat-lite/xmltok_impl.c:244-303 | every processing instruction and declaration of the grammar is found |
| `XmlSyntax.FoundEndTag` | expat-lite/xmltok_impl.c:403-447 | what is found as an end tag is "</", a name, white space and ">" |
| `XmlSyntax.OpenerIs` | expat-lite/xmltok_impl.c:306-323 | a CDATA opener is found exactly at "<![CDATA[" |
| `XmlReferences.ReferenceMeans` | expat-lite/xmltok_impl.c:1480-1570 | a character reference stands for the UTF-8 form of the number its digits denote, or for nothing if that is no Char; lt, gt, amp, quot and apos stand for their characters; any other name for what is declared |
| `XmlReferences.Utf8FormIs` | expat-lite/xmltok.c:1110-1144 | the bytes written for a number are the shortest sequence of section 3 of RFC 3629 that denotes it, and the only one of that length |
| `XmlReports.ContentTold` | expat-lite/xmlparse.c:1048-1479 | a run of doContent on the last bytes of a document, of an external entity or on an internal entity's text accepts them exactly if they are told to be accepted, fails with the error told if there is a choice, and reports exactly the events told: text with line ends as line feeds, CDATA sections, tags with their names, comments, processing instructions, and references replaced by what they stand for |
| `XmlReports.DocumentTold` | expat-lite/xmlparse.c:759-863 | the same of a document given to XML_Parse in any pieces, with its epilog |
| `XmlReports.EntityTold` | expat-lite/xmlparse.c:1039-1046 | the same of an external parsed entity that is not cut inside a CDATA section |
| `XmlReports.ReferenceTold` | expat-lite/xmlparse.c:1116-1192 | a reference in content is replaced, skipped, handed to the handler or refused as undefined, recursive, unparsed, or by the handler, in that order |
| `XmlReports.TagTold` | expat-lite/xmlparse.c:1193-1320 | a tag reports its name and its bytes, and opens an element or begins and ends one |
| `XmlReports.EndTagTold` | expat-lite/xmlparse.c:1321-1362 | an end tag is refused where nothing was opened in the same text, and for another name than that of the element opened last |
| `XmlReports.ToldText` | expat-lite/xmltok_impl.c:804-899 | text is its characters one after another, with CR LF and CR as line feeds, up to markup; "]]>" in it is refused |
| `XmlReports.SectionTold` | expat-lite/xmlparse.c:1745-1830 | a CDATA section is its characters up to the first "]]>", line ends as line feeds |
| `XmlReports.EpilogTold` | expat-lite/xmlparse.c:2281-2336 | after the document element white space, comments and processing instructions are accepted and reported, and nothing else |
| `XmlReports.TagNameIs` | expat-lite/xmltok_impl.c:1664-1690 | the name taken from a tag is the name the grammar has in it |
| `XmlReports.EndTagNameIs` | expat-lite/xmltok_impl.c:1664-1690 | the same for an end tag |
| `XmlNesting.ContentNests` | expat-lite/xmlparse.c:1048-1479 | the element events of any run of the content processor follow one stack of open elements and reach none that was open before, also in runs that fail |
| `XmlNesting.ExpansionNests` | expat-lite/xmlparse.c:1154-1173 | a successful expansion of an internal entity neither closes an outer element nor leaves one open |
| `XmlNesting.ExpansionRestoresState` | expat-lite/xmlparse.c:1154-1173 | an expansion that succeeds leaves level, tag stack and processor as it found them, and its events are balanced |
| `XmlNesting.DocumentNestsFromStart` | expat-lite/xmlparse.c:949-957 | a document that is accepted has balanced element events and ends in the epilog |
| `XmlChunks.ContentExtends` | expat-lite/xmlparse.c:1048-1479 | running the content processor on more bytes is running it on the first and resuming with what it left and the rest, up to the joining of adjacent character data |
| `XmlChunks.CdataExtends` | expat-lite/xmlparse.c:1745-1830 | the same for the CDATA processor |
| `XmlChunks.EpilogExtends` | expat-lite/xmlparse.c:2281-2336 | the same for the epilog processor |
| `XmlChunks.ProcessExtends` | expat-lite/xmlparse.c:759-863 | the same for whichever processor is current |
| `XmlChunks.ReferenceExtends` | expat-lite/xmlparse.c:1116-1192 | the same across an entity reference, whose expansion does not see the cut |
| `XmlChunkRuns.DocumentChunks` | expat-lite/xmlparse.c:759-863 | for every split of a document's bytes over calls of XML_Parse the run fails or succeeds as the run on all of them does, with the same events |
| `XmlChunkRuns.DocumentChunksFromStart` | expat-lite/xmlparse.c:759-863 | the same from the start of the document element |
| `XmlChunkRuns.EntityChunks` | expat-lite/xmlparse.c:1728-1741 | for an external parsed entity, chunking does not matter if no cut falls inside a CDATA section; if one does the run fails, because cdataSectionProcessor always goes on with the document's processor |
| `XmlChunkRuns.EntityAcceptedInPieces` | expat-lite/xmlparse.c:1728-1741 | an entity that is accepted at once is accepted in pieces if and only if no piece ends inside a CDATA section; where a piece ends is told from the tokens of the bytes alone |
| `XmlChunkRuns.EndsIs` | expat-lite/xmlparse.c:1728-1741 | a run that does not fail is left inside a CDATA section exactly if the tokens of its bytes end inside one, whatever entities it expands |
| `XmlAscii.CutInsideCdataIsRefused` | expat-lite/xmlparse.c:1728-1741 | a concrete entity with a concrete cut that is refused |
| `XmlParser.Parser.DoContent` | expat-lite/xmlparse.c:1048-1479 | the loop of doContent, with the entity and CDATA cases, goes from the parser's state to what the content function says, handler call by handler call |
| `XmlParser.Parser.DoInternalEntity` | expat-lite/xmlparse.c:1154-1173 | the entity is open exactly while its text is parsed; the set of open entities is the one found on entry on every return |
| `XmlParser.Parser.DoReference` | expat-lite/xmlparse.c:1116-1192 | the cases of an entity reference: predefined, undefined, recursive, binary, internal, external |
| `XmlParser.Parser.DoEndTag` | expat-lite/xmlparse.c:1321-1362 | an end tag pops the stack, or is refused at the level of the entity or for another name |
| `XmlParser.Parser.DoCdataSection` | expat-lite/xmlparse.c:1745-1830 | the loop of doCdataSection |
| `XmlParser.Parser.DoCdataThenContent` | expat-lite/xmlparse.c:1728-1741 | cdataSectionProcessor: the section, then the document's content |
| `XmlParser.Parser.DoEpilog` | expat-lite/xmlparse.c:2281-2336 | the loop of epilogProcessor |
| `XmlParser.Parser.GetBuffer` | expat-lite/xmlparse.c:832-865 | there is room for the bytes asked for, and what is pending is kept, whether the buffer is moved, grown or left |
| `XmlParser.Parser.ParseBuffer` | expat-lite/xmlparse.c:813-830 | the processor runs on what was pending and the new bytes, and what it left stays pending |
| `XmlParser.Parser.Parse` | expat-lite/xmlparse.c:759-811 | the same for bytes that are passed in; the copy is avoided when nothing is pending |
| `XmlParser.Parser.ParsePieces` | expat-lite/xmlparse.c:759-811 | a client that passes pieces gets the run the chunk lemmas are about |
| `XmlElementDecl.AcceptsExactlyDeclarations` | expat-lite/xmlrole.c:843-1071 | the automaton accepts a token sequence if and only if it is, white space aside, the tokens of an element type declaration: EMPTY, ANY, Mixed or children, with balanced parentheses and no group that mixes "," and "|" |
| `XmlElementDecl.DeclarationRuns` | expat-lite/xmlrole.c:843-1071 | every well-formed declaration is accepted |
| `XmlElementDecl.ParseDeclaration` | expat-lite/xmlrole.c:843-1071 | everything accepted is the yield of a well-formed declaration |
| `XmlElementDecl.StepByRole` | expat-lite/xmlrole.c:889-1071 | the level counter together with the per-level connectors takes the automaton's step |
| `XmlElementDecl.DeclParser.TokenRole` | expat-lite/xmlrole.c:843-1071 | the handlers set the next handler, level and role |
| `XmlElementDecl.DeclParser.OpenGroup` | expat-lite/xmlparse.c:2214-2224 | opening a group makes room for its connector and clears it |
| `XmlElementDecl.DeclParser.Connect` | expat-lite/xmlparse.c:2225-2238 | a second kind of connector in a group is refused |
| `XmlElementDecl.DeclParser.Handle` | expat-lite/xmlparse.c:2214-2238 | one token takes the object from one automaton state to the next, or fails where the automaton does |
| `XmlElementDecl.DeclParser.Declare` | expat-lite/xmlrole.c:843-1071 | the object succeeds on exactly the declarations of the grammar |
| `XmlAttributes.ReferenceIs` | expat-lite/xmlparse.c:2385-2475 | a reference in a value is replaced by the character it stands for or by the value of its entity, and refused if it is undefined in a complete document, recursive, unparsed, external, or a number that is no Char |
| `XmlAttributes.StoreIsNormalized` | expat-lite/xmlparse.c:2349-2482 | storeAttributeValue fails alike for both types of attribute; for CDATA it gives the character-by-character normalisation of section 3.3.3 of XML 1.0, in which references are read from the grammar, and for other types that value with its words joined by single spaces if and only if no run of data characters has two space bytes in a row |
| `XmlAttributes.BrokenCharacter` | expat-lite/xmlparse.c:2406-2409 | a value with a malformed character for which it does not |
| `XmlUtf8.MalformedStored` | expat-lite/xmlparse.c:1536-1553 | in UTF-8, a tag that the scanner accepts and whose value getAtts leaves to storeAttributeValue, which does not make of it what section 3.3.3 asks for |
| `XmlUtf8.MalformedCopied` | expat-lite/xmlparse.c:1536-1567 | in UTF-8, a tag that the scanner accepts and whose value getAtts marks as normalized, while storeAttributeValue would make another of it |
| `XmlAttributes.ApartIsTidy` | expat-lite/xmlparse.c:2349-2482 | in a well formed encoding every value meets that condition |
| `XmlAttributes.SameFate` | expat-lite/xmlparse.c:2364-2482 | what the pass accepts does not depend on what is in the pool, it only adds to the pool, and two spaces in a row that a run brings in stay |
| `XmlAttributes.OnePass` | expat-lite/xmlparse.c:2364-2482 | with what has been kept so far in the pool, one pass over a value or an entity's text keeps what the two passes give, also across nested entities and character references to a space |
| `XmlAttributes.TokenIs` | expat-lite/xmltok_impl.c:1219-1275 | the tokens of an attribute value are its characters: a run, a line end, a white space character or a reference |
| `XmlAttributes.RunIs` | expat-lite/xmltok_impl.c:1219-1275 | a run of data characters is its characters one after another, and "<" is refused wherever it is |
| `XmlAttributes.ChopIsCollapsed` | expat-lite/xmlparse.c:2357-2358 | what the pass keeps, without a space at its end, is the string with its words joined by single spaces |
| `XmlAttributePass.AttributeParser.AppendAttributeValue` | expat-lite/xmlparse.c:2364-2482 | the loop appends in place what the function says; the entities found open are open again on every return |
| `XmlAttributePass.AttributeParser.StoreAttributeValue` | expat-lite/xmlparse.c:2349-2362 | the pool ends up with the stored value |
| `XmlAttributePass.AttributeValueTokLoop` | expat-lite/xmltok_impl.c:1219-1275 | the byte loop computes the token |
| `XmlGetAtts.GetAtts` | expat-lite/xmltok_impl.c:1388-1478 | on a tag the scanner has accepted, getAtts counts the attributes the scanner passed over and stores the first attsMax of them, never reading behind the tag |
| `XmlTagAttributes.TagAttributes` | expat-lite/xmltok_impl.c:1388-1478 | the attributes getAtts finds are those the grammar has in the tag, in order, each with its name and value where the grammar has them; a value is marked as normalized if and only if a copy of it gets no character wrong |
| `XmlTagAttributes.TokenTellsAttributes` | expat-lite/xmltok_impl.c:545-802 | the token of a tag says that it has attributes if and only if getAtts finds any |
| `XmlGetAtts.Steps` | expat-lite/xmltok_impl.c:545-702 | the scanner moves along a tag character by character |
| `XmlGetAtts.ReadInValue` | expat-lite/xmltok_impl.c:1396-1477 | in a value, the reader with three states stays where the scanner is, and closes the value where it does |
| `XmlGetAtts.CopiedAsStored` | expat-lite/xmlparse.c:1536-1567 | a value marked as normalized is what storeAttributeValue would make of it: for CDATA always, for other types if and only if no character that ends in a space byte stands in front of white space or at the end |
| `XmlGetAtts.CopiedWhenApart` | expat-lite/xmlparse.c:1536-1567 | in a well formed encoding the copy is always what would have been stored |
| `XmlGetAtts.CharsAppended` | expat-lite/xmlparse.c:2402-2420 | without references and line ends the pass keeps every character but the white space that is redundant |
| `XmlGetAtts.ValuesPlain` | expat-lite/xmltok_impl.c:1444-1467 | a value marked as normalized has no reference, no line end and no space but single ones between other characters |
| `AvlTree.RotationsRecord` | glib/gtree.c:644-714 | a rotation computes from the stored balances the true ones, for any difference of heights |
| `AvlTree.RebalanceAvl` | glib/gtree.c:426-443 | a node two out of balance becomes an AVL tree, and whether its height fell shows in the root's balance |
| `AvlTree.Insert` | glib/gtree.c:298-364 | insertion gives an AVL tree that has grown exactly if its root's balance has changed to something other than 0 |
| `AvlTree.RemoveLeftmost` | glib/gtree.c:445-460 | the same for the removal of the first node |
| `AvlTree.Remove` | glib/gtree.c:366-424 | removal gives an AVL tree that has shrunk exactly if its root is gone or its balance has changed to 0 |
| `AvlTree.RestoreLeftShrinks` | glib/gtree.c:462-475 | restoring the balance after a removal on the left, from the subtree root's balance before and after alone |
| `AvlTree.RestoreRightShrinks` | glib/gtree.c:477-490 | the same on the right |
| `AvlRuns.InsertEntries` | glib/gtree.c:298-364 | insertion inserts into the sorted list of entries, and reports whether the key was new |
| `AvlRuns.RemoveEntries` | glib/gtree.c:366-424 | removal removes from it |
| `AvlRuns.LookupEntries` | glib/gtree.c:492-518 | look-up finds what is in it |
| `AvlRuns.SearchFinds` | glib/gtree.c:597-619 | a search by any function that points towards the wanted entries finds one if there is one |
| `AvlRuns.RunRefinesMap` | glib/gtree.c:173-214 | after every run of insertions and removals the tree is an AVL tree in key order, and look-up gives the last value inserted and not removed |
| `AvlRuns.HeightBound` | glib/gtree.c:621-642 | a tree of height h has at least Fib(h + 2) - 1 nodes |
| `AvlRuns.RunHeight` | glib/gtree.c:621-642 | so the height after any run is logarithmic in the number of entries |
| `GTree.NodeRotateLeft` | glib/gtree.c:644-679 | the nodes are relinked to hold the rotated tree |
| `GTree.NodeRotateRight` | glib/gtree.c:681-714 | the same, to the right |
| `GTree.NodeBalance` | glib/gtree.c:426-443 | the nodes are relinked to hold the rebalanced tree |
| `GTree.NodeInsert` | glib/gtree.c:298-364 | the nodes, and a new one at most, hold the tree with the entry inserted |
| `GTree.NodeRemove` | glib/gtree.c:366-424 | the nodes but one at most hold the tree with the entry removed |
| `GTree.NodeRemoveLeftmost` | glib/gtree.c:445-460 | the first node is taken out and returned |
| `GTree.NodeRestoreLeftBalance` | glib/gtree.c:462-475 | the balance is restored in place after a removal on the left |
| `GTree.NodeRestoreRightBalance` | glib/gtree.c:477-490 | the same on the right |
| `GTree.NodeSearch` | glib/gtree.c:597-619 | the loop of g_tree_node_search |
| `GTree.GTree.Insert` | glib/gtree.c:173-188 | the tree's sorted entries with the new one, order and balance kept |
| `GTree.GTree.Remove` | glib/gtree.c:190-201 | the tree's sorted entries without the key's |
| `GTree.GTree.Height` | glib/gtree.c:268-281 | the height, which bounds the number of entries from below |
| `MemChunk.AtomsApart` | glib/gmem.c:554-685 | no two atoms overlap, live or listed, and each lies inside one area |
| `MemChunk.FreeIsEmpty` | glib/gmem.c:594-624 | an area is entirely free exactly when it holds no live and no listed atom |
| `MemChunk.SearchFindsOwner` | glib/gmem.c:941-952 | the search of the tree by address finds the area an atom was carved out of |
| `MemChunk.GoesLive` | glib/gmem.c:625-634 | taking a freed atom of an unmarked area keeps the invariant, and the atom was not live |
| `MemChunk.Drained` | glib/gmem.c:594-602 | draining an atom of a marked area keeps it |
| `MemChunk.Released` | glib/gmem.c:604-618 | releasing an area that is entirely free keeps it |
| `MemChunk.CarvedAnew` | glib/gmem.c:641-678 | setting up a new or spare area and carving its first atom keeps it |
| `MemChunk.Carved` | glib/gmem.c:673-678 | carving the next atom keeps it, and the atom is neither live nor listed |
| `MemChunk.Freed` | glib/gmem.c:722-738 | freeing a live atom keeps it; the area is marked when its last live atom goes |
| `MemChunk.Chunk.Alloc` | glib/gmem.c:554-685 | an atom that was not live is handed out: the first listed one of an unmarked area, with those of marked areas before it drained, or one that is carved |
| `MemChunk.Chunk.TakeFreed` | glib/gmem.c:567-635 | one round of the loop over freed atoms |
| `MemChunk.Chunk.Drain` | glib/gmem.c:594-624 | the area is released or kept as the spare one with its last atom |
| `MemChunk.Chunk.NextArea` | glib/gmem.c:641-671 | the current area, the spare one or a new one becomes ready to be carved |
| `MemChunk.Chunk.Free` | glib/gmem.c:703-742 | a live atom goes to the front of the list |
| `MemChunk.Chunk.Clean` | glib/gmem.c:746-809 | the atoms of marked areas leave the list, the others stay in order, and no marked area is left but the spare one |
| `Calendar.FromJulianIsDay` | glib/gdate.c:198-244 | the closed form gives for every day number n the date n - 1 days after 1 January of the year 1 |
| `Calendar.ToJulianIsPlace` | glib/gdate.c:164-196 | the closed form gives for every valid date its place in the succession of days |
| `Calendar.BackFrom` | glib/gdate.c:164-244 | the two closed forms are inverse to each other |
| `Calendar.NumberOfDay` | glib/gdate.c:164-196 | the day number of the n-th day is n |
| `Calendar.OrderIsChronological` | glib/gdate.c:1198-1215 | comparing year, month and day is comparing day numbers |
| `Calendar.WeekIsCount` | glib/gdate.c:340-391 | the week of the year is how often its weekday has come in the year |
| `Calendar.MondayWeek` | glib/gdate.c:340-364 | for Monday, from the date itself |
| `Calendar.WeeksInYearIsCount` | glib/gdate.c:1134-1176 | the weeks in a year are how often the weekday comes in it |
| `Calendar.MinusMonths` | glib/gdate.c:1016-1055 | going back gives a valid date exactly if it stays after the year 0 |
| `Calendar.MonthsMove` | glib/gdate.c:982-1055 | moving by months moves by that many and keeps the day of the month or takes the last |
| `Calendar.MonthsThereAndBack` | glib/gdate.c:982-1055 | going back undoes going forward if and only if the day of the month was not cut |
| `Calendar.YearsAreMonths` | glib/gdate.c:1057-1108 | moving by years is moving by twelve months each |
| `GDate.Date.UpdateJulian` | glib/gdate.c:164-196 | both forms denote the same day afterwards |
| `GDate.Date.UpdateDmy` | glib/gdate.c:198-244 | both forms denote the same day afterwards |
| `GDate.Date.NumberIsDate` | glib/gdate.c:164-244 | whichever form a date is in, its day number and its day, month and year are the same day |
| `GDate.Date.SetMonth` | glib/gdate.c:829-845 | the date with the month changed, or no date if that is none; a number that is no month changes nothing, and an object without a date keeps its day and year |
| `GDate.Date.AddDays` | glib/gdate.c:949-963 | the day that many days later |
| `GDate.Date.SubtractDays` | glib/gdate.c:965-980 | the day that many days earlier, or the same if there is none |
| `GDate.Date.AddMonths` | glib/gdate.c:982-1014 | the date moved by months |
| `GDate.Date.SubtractMonths` | glib/gdate.c:1016-1055 | the date moved back by months; as many years as the date has are refused; and the result is a date if and only if it stays after the year 0 |
| `Calendar.YearZero` | glib/gdate.c:1016-1055 | one month before January of the year 1 the code leaves a month of the year 0, which is no date |
| `GDate.Date.AddYears` | glib/gdate.c:1057-1081 | the date moved by twelve times as many months |
| `Calendar.WeekdayIs` | glib/gdate.c:258 | the weekday taken from the day number is the one Zeller's congruence gives for day, month and year |
| `Calendar.KnownDays` | glib/gdate.c:258 | dates whose weekday is known |
| `GDate.Date.WeekdayOf` | glib/gdate.c:246-259 | the weekday of the date, and none for no date |
| `GDate.Date.MondayWeekOfYear` | glib/gdate.c:340-364 | the number of Mondays of the year up to the date |
| `GDate.Compare` | glib/gdate.c:1178-1226 | the chronological order of two dates in any mix of forms, also of a date with itself; the loop ends |
| `GDate.WeeksInYearOf` | glib/gdate.c:1134-1176 | the checks of four days of the year compute the weeks in it |
| `HookRuns.InvokeCallsOnce` | glib/ghook.c:283-308 | a traversal calls every hook that can be called throughout exactly once, whatever callbacks destroy, insert, hold or traverse |
| `HookRuns.CalledWhenPassed` | glib/ghook.c:283-395 | at every moment of a traversal such a hook has been called or lies ahead, not both |
| `HookRuns.CalledInOrder` | glib/ghook.c:283-395 | such hooks are called in the order of the list |
| `HookRuns.UnrefCounts` | glib/ghook.c:175-216 | the count of references stays right, the hook is unlinked and freed exactly when it was destroyed and this was the last, and the checks for a hook that is not destroyed or is in a call never find one at its last reference |
| `HookRuns.DestroyCounts` | glib/ghook.c:129-154 | destroying a hook takes its own reference, and leaves it linked as long as somebody holds it |
| `HookRuns.InsertCounts` | glib/ghook.c:238-281 | an inserted hook has one reference and a new id |
| `HookRuns.NextCounts` | glib/ghook.c:421-448 | looking for the next hook moves the traversal's reference along |
| `HookRuns.DoAllCounts` | glib/ghook.c:129-281 | over every sequence of operations the counts stay right, a hook is in a call only while a caller holds it, no hook is freed twice and none is unlinked that somebody holds |
| `HookRuns.BeginShared` | glib/ghook.c:299-301 | setting the flag before a call keeps that, for a hook that is already in a call too |
| `HookRuns.EndShared` | glib/ghook.c:302-304 | clearing it after the call keeps that, if it was this call that set it |
| `HookRuns.DoAllKeepsOrder` | glib/ghook.c:129-281 | no sequence of operations changes the order of two hooks that stay |
| `HookRuns.InsertKeepsSorted` | glib/ghook.c:586-626 | sorted insertion with g_source_compare keeps the sources that are not destroyed sorted by priority and age, with destroyed ones anywhere between |
| `HookRuns.OthersKeepSorted` | glib/ghook.c:129-227 | no other operation takes one out of order |
| `HookRuns.RunTells` | glib/ghook.c:310-339 | after any part of a traversal a hook is destroyed if a callback has destroyed it or it has answered that it is done, and otherwise it is there with its id |
| `HookRuns.OnlyEligibleCalled` | glib/ghook.c:397-448 | a traversal calls no hook that cannot be called |
| `HookRuns.InsertedInFront` | glib/ghook.c:238-281 | behind an inserted hook stands its sibling with all that stood behind it, or nothing |
| `GHook.HookList.InsertBefore` | glib/ghook.c:238-281 | the links are set so that the hook is in front of its sibling, or last |
| `GHook.HookList.Unref` | glib/ghook.c:175-216 | the hook is unlinked with its last reference, unless it is not destroyed or in a call |
| `GHook.HookList.Ref` | glib/ghook.c:218-227 | one reference more |
| `GHook.HookList.DestroyLink` | glib/ghook.c:129-154 | the hook is destroyed, and unlinked if nobody holds it |
| `GHook.HookList.FirstValidHook` | glib/ghook.c:397-419 | the first hook that can be called, held |
| `GHook.HookList.NextValid` | glib/ghook.c:421-448 | the next hook that can be called, held in place of the last |
| `GHook.HookList.InsertSorted` | glib/ghook.c:586-626 | the hook goes in front of the first live one that does not come before it |
| `MainLoop.Iterate` | glib/gmain.c:702-884 | an iteration queues, in order, exactly the ready sources of the most urgent priority among those that may run; asked without dispatching, it answers whether any source is ready; a source that is not queued keeps its ready flag or gets it from its own functions |
| `MainLoop.Check` | glib/gmain.c:813-870 | the loop that checks sources builds that queue and takes the ready flag off what it queues |
| `MainLoop.Prepare` | glib/gmain.c:739-804 | the loop that prepares sources prepares all that could be in the queue |
| `MainLoop.DispatchGoes` | glib/gmain.c:629-670 | over a whole dispatch the sources dispatched are those of the queue, in order, that are not destroyed before their turn; a source that answers FALSE or that a dispatch function destroys is destroyed afterwards, and every other one is there with its id; the in-call flag of each is set exactly while some caller has it in a call |
| `MainLoop.DestroyedNotDispatched` | glib/gmain.c:629-670 | a source that is destroyed is not dispatched any more |
| `MainLoop.DestroyedBeforeTurn` | glib/gmain.c:629-670 | when the dispatch function of one source destroys another, that one is not dispatched after it, over a whole dispatch of the queue |
| `MainLoop.DestroyedIsFreed` | glib/gmain.c:629-670 | and when the queue is done it has been freed, once, if and only if nobody else holds it |
| `Namespaces.Scopes.AddBinding` | expat-lite/xmlparse.c:1676-1723 | inside a tag: the prefix has its new name, or the default namespace has none; the record comes from the free list if there is one and is in exactly one chain; what the open elements go back to is kept |
| `Namespaces.Scopes.Inherit` | expat-lite/xmlparse.c:2876 | the same for a binding of a context, before any element |
| `Namespaces.Scopes.StartElement` | expat-lite/xmlparse.c:1193-1268 | the map inside an element is its parent's overridden by the element's declarations, and what was there before is remembered |
| `Namespaces.Scopes.EndElement` | expat-lite/xmlparse.c:1350-1358 | the map after an element is the one before it; its records become free and the elements around it are not touched |
| `Namespaces.Scopes.EmptyElement` | expat-lite/xmlparse.c:1306-1313 | the same for an empty-element tag |
| `Namespaces.Scopes.WholeElement` | expat-lite/xmlparse.c:1193-1362 | an element with everything in it leaves the map as it was, and at each start tag in it the map is that of its parent overridden by its own declarations |
| `Namespaces.UndoOne` | expat-lite/xmlparse.c:1711-1716 | taking a record back gives what its prefix was bound to before, in all cases |
| `Namespaces.ScopedBind` | expat-lite/xmlparse.c:1676-1723 | a new record keeps what every open element will go back to |
| `Namespaces.ScopedElsewhere` | expat-lite/xmlparse.c:1684-1693 | using a free record again changes nothing for the elements that are open |
| `Namespaces.OnlyThere` | expat-lite/xmlparse.c:1350-1358 | a free record is in no element's chain and not inherited |
| `Context.GetContext` | expat-lite/xmlparse.c:2770-2836 | the loops write all bindings and all open entities with separators between |
| `Context.SetContext` | expat-lite/xmlparse.c:2838-2890 | the loop puts into effect the items the string says, in order |
| `Context.ReadWritten` | expat-lite/xmlparse.c:2770-2890 | reading what was written for a list of items gives that list |
| `Context.ContextRestored` | expat-lite/xmlparse.c:2770-2890 | writing and reading restores the map from prefixes to names, the default namespace and the open entities |
| `Context.Child` | expat-lite/xmlparse.c:525-580 | the parser of an external entity sees the prefixes its parent sees, with the same entities open |
| `StringPool.Pool.Grow` | expat-lite/xmlparse.c:3201-3255 | there is room afterwards, the string in progress is what it was, and no finished string has moved or changed |
| `StringPool.Pool.TakeFree` | expat-lite/xmlparse.c:3205-3213 | a pool without a block takes one that is free |
| `StringPool.Pool.MoveToFree` | expat-lite/xmlparse.c:3214-3224 | the string in progress moves to a free block that is larger |
| `StringPool.Pool.Enlarge` | expat-lite/xmlparse.c:3226-3235 | a block that holds only the string in progress may move: no finished string lies in it |
| `StringPool.Pool.NewBlock` | expat-lite/xmlparse.c:3236-3253 | the string in progress moves to a new block; the finished ones stay in the old one |
| `StringPool.Pool.AppendChar` | expat-lite/xmlparse.c:260-263 | one byte more in the string in progress, and nothing else |
| `StringPool.Pool.Append` | expat-lite/xmlparse.c:3148-3162 | the UTF-8 form of the source is appended; the loop ends even if a block has no room for a character |
| `StringPool.Pool.CopyString` | expat-lite/xmlparse.c:3164-3173 | a finished string with its zero |
| `StringPool.Pool.CopyStringN` | expat-lite/xmlparse.c:3175-3187 | a finished string of n bytes |
| `StringPool.Pool.StoreString` | expat-lite/xmlparse.c:3189-3199 | the converted source and a zero, in progress |
| `StringPool.Pool.Finish` | expat-lite/xmlparse.c:259 | the string in progress is from now on one of those that stay |
| `StringPool.Pool.Chop` | expat-lite/xmlparse.c:256 | the string in progress without its last byte |
| `StringPool.Pool.Discard` | expat-lite/xmlparse.c:258 | nothing is in progress, and the finished strings stay |
| `StringPool.Pool.Clear` | expat-lite/xmlparse.c:3106-3124 | every block becomes free and no string is left |
| `StringPool.Pool.Run` | expat-lite/xmlparse.c:3096-3255 | over every run of operations without a clearing, each string that was finished stays where it was with what it was, and the pool holds what a list of strings would hold |
| `HashTable.Table.Lookup` | expat-lite/hashtable.c:61-115 | the entry of the name, or a new one for it, as in a map; at most half the slots are in use |
| `HashTable.Table.Probe` | expat-lite/hashtable.c:74-81 | the probe ends, and finds the key if and only if it is stored |
| `HashTable.Table.Grow` | expat-lite/hashtable.c:85-102 | twice the slots and the same entries |
| `HashTable.Table.FirstEmpty` | expat-lite/hashtable.c:103-106 | the probe for a key comes to an empty slot over slots that are full |
| `HashTable.Table.Entries` | expat-lite/hashtable.c:136-150 | the iterator gives every entry once |
| `HashTable.NotStored` | expat-lite/hashtable.c:74-81 | an empty slot on a key's probe means that the key is nowhere in the table |
| `HashTable.Filled` | expat-lite/hashtable.c:109-114 | filling that slot stores the key once and keeps every other key where its probe finds it |
| `Utf16.Utf16FormIs` | expat-lite/xmltok.c:1146-1161 | the units written for a character are the ones that denote it by section 2.2 of RFC 2781, and no others denote it |
| `Utf16.ConvertIs` | expat-lite/xmltok.c:492-553 | the bytes the converter makes of a character's units are those of XmlUtf8Encode |
| `Utf16.TwoUnits` | expat-lite/xmltok.c:534-549 | the bits of both surrogates come to their places in the four bytes |
| `Utf16.CharIs` | expat-lite/xmltok.c:1146-1161 | the units of XmlUtf16Encode, in either byte order, are one whole character that converts to its UTF-8 form |
| `Utf16.TextIs` | expat-lite/xmltok.c:492-553 | the conversion of the UTF-16 form of any text is the concatenation of XmlUtf8Encode of its characters |
| `Utf16.ToUtf8` | expat-lite/xmltok.c:492-553 | it stops between two characters, all before are converted, and the next one does not fit |
| `Utf16.StopsBetween` | expat-lite/xmltok.c:492-553 | where it stops in a text, the rest is the UTF-16 form of the rest of the text |
| `Utf16.AllOfBoth` | expat-lite/xmltok.c:492-553 | converting in two steps gives the same bytes as converting at once |
| `Utf16.Report` | expat-lite/xmlparse.c:1444-1454 | the loop over the data buffer ends, hands over whole characters and in all the UTF-8 form of the text |

## Left out

- Attributes inside the content model: what storeAtts makes of a tag is the parameter tagError of XmlContent.Config, which sees the encoding, the tag, the open entities and the open tags; XmlAttributes and XmlGetAtts treat attributes by themselves.
- Default attributes, duplicate attributes and attribute identifiers (getAttributeId) are not modelled.
- In the parser the conversion of names and text to the internal encoding: its events carry the bytes as they came; Utf16 converts by itself.
- The prolog beyond element type declarations: the DOCTYPE declaration, entity, attribute-list and notation declarations, and entityValueTok.
- Encoding detection, named and unknown encodings, and the tables of character classes: results hold for every encoding whose characters take at least one byte, with the tables as functions.
- The default handler, positions of events and errors in the input, and which handlers are set: every handler but the default one is taken to be set.
- Allocation failure, and buffer sizes beyond the range of int, in every component; locks and threads.
- XmlReports.DocumentTold: a document is followed from the first tag on; names and tags are reported as the bytes they are, and which of the errors of malformed bytes a run fails with is not told.
- XmlSyntax.AsciiTable: results about the grammar hold for tables that classify the bytes of ASCII as ASCII is classified, which is what every table of the repository does and what unknown encodings are checked for.
- XmlParser.Parser.DoEpilog: the prolog tokens are scanned by a function, without the byte loop of prologTok.
- XmlElementDecl: the names of elements in a declaration are not looked at, only that they are names.
- GTree: the list of spare nodes, traversal with a caller's function and g_tree_destroy; a node that is removed is simply no longer part of the tree.
- MemChunk: chunks of type G_ALLOC_ONLY, g_mem_chunk_reset (it does not clear the spare area), the count of marked areas, and the rounding of sizes in g_mem_chunk_new; areas and the list of freed atoms are values here, so the links written into freed atoms are not modelled, and the tree of areas is the value of the tree, not its nodes.
- GDate: years of 16 bits and day numbers of 32; parsing, formatting and conversion from system time; the setters of day and year, which are like SetMonth.
- HookRuns: a callback that clears the whole list, and destroy notifications, which happen where a hook is freed.
- XmlTok.Encoding.Width: a character that the end of the bytes cuts short ends there, where attributeValueTok steps past the end; values and entity texts that the other scanners have passed over hold none.
- GHook: the calls of hooks themselves; HookRuns has them, as values.
- MainLoop: preparing and checking that change the list of sources, a main loop run inside a dispatched function, waiting for file descriptors, time-outs, and the sources' own functions.
- Namespaces: a start element handler is taken to be set (without one the code sees no declarations); records are numbers and their chains sequences; the names of elements and attributes are not expanded, and the room behind a binding's name that the code uses for that is not modelled.
- Context: the order in which the tables are gone through is given; names hold no "=" and no form feed, the names they are bound to no form feed.
- StringPool: empty strings are not followed; realloc always moves; the encodings whose conversion fills the pool are the two of UTF-16, the others copy or translate bytes.
- HashTable: the hash function is any function; an entry is what it holds, made before the look-up.
- Utf16: quotients and remainders stand for shifts and masks, and the source is whole characters: a high surrogate as its last unit would make the code read on behind its end.
