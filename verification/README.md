# Proofs about a GPS location server

The server keeps the last positions of devices in a grid of cells, answers queries about regions, and
embeds the Mongoose HTTP server and the TinyXML parser. This project models the parts of it that have
structure to prove and proves what they are for. `dafny verify dfyconfig.toml` checks everything.

**TinyXML.** Text is modelled as C strings of bytes in non-UTF-8 mode (`char` values stand for bytes,
and a cursor is the rest of the string); the DOM is a heap of nodes with ghost fields for the list of
children and for the tree below a node.

- `XmlText` and `XmlTree` define, on values, what is printed and what is read: entities, white space,
  names, attributes, elements. `XmlScanner` holds the loops of the source and ties them to these functions.
- `XmlTextRoundTrip`, `XmlRoundTrip` and `XmlParsed` prove that parsing undoes printing, for which values,
  texts and trees, and what comes back otherwise. `XmlLag` and `XmlExact` prove that no other tree comes
  back: a reader that has run ahead of the printed text never falls back into step with it. `XmlStable`
  proves that a successful parse does not depend on what follows.
- `XmlGrammar` and `XmlDerivation` say which texts are parsed and as what, without the parser: a grammar from
  single characters up to elements, and the proof that the parser accepts exactly its texts
  (`XmlDerivation.ParsedExactly`).
- `XmlAttributes` (the circular attribute list with its sentinel), `XmlDom` (the sibling lists, the list
  operations, cloning), `XmlCopied` (when a clone equals its original), `XmlParser` (the recursive-descent
  parser on the heap), `XmlPrinter` (the visitor) and `XmlEdits` (runs of list operations) are the mutable
  structures; `XmlPrinter.PrintAndParse` joins printer and parser.
- `TinyString` is the growable string, `Utf8` the conversion to UTF-8 and the table that steps over it.

**Mongoose.** `SocketQueue` has the queue as an array with two counters and, above it, the master and the
workers as a state machine over critical sections, with sets of waiting, signalled and spuriously woken
workers. `Glob` is the pattern matcher, `Md5` the streaming wrapper around an arbitrary compression
function, `HttpFraming` the search for the end of a request and the reading of its body, `HttpRequest` what
is parsed out of a request, `HttpKeepAlive` the worker that serves the requests of one connection after the
other with one buffer, `UrlCoding` the URL encoder and decoder.

**Location index.** `GeoMap` defines cells, regions, filters and sorting on values and proves that the grid
loses nothing; `GridMap` has the cells and the map as objects; `LocServer` adds the pool of last positions
and the history of reports. Coordinates are real numbers.

`Wrappers`, `Bytes` and `Sequences` hold what several modules share.

What the proofs found out about the code:

- Values and texts that hold `&#x` do not survive printing and parsing, nor do leading, trailing or doubled
  blanks in a text (`XmlTextRoundTrip.AttributeValueRoundTrip`, `XmlTextRoundTrip.TextRoundTrip`,
  `XmlExact.RoundTripExactly`).
- An attribute with empty name and value, unless it is the first, ends every walk over the attributes early
  (`XmlTree.Visited`), so it and what follows it are neither printed nor copied (`XmlCopied.CopyIsFaithful`).
- In a numeric reference only the digits behind the last `#` (or `x`) in front of the semicolon count, and only
  modulo 256, so `&#7#65;` is an A; an ampersand that starts no reference is dropped (`XmlGrammar.UnitRead`).
- A device that moves to another cell leaves its old record behind, and queries find it (`LocServer.CurrentIff`,
  `LocServer.MoveAndQuery`).
- A worker does not clear its buffer between connections. What one connection leaves in it, for example a
  pipelined request behind one that closes the connection, is served to the next client
  (`HttpKeepAlive.OwnRequests`, `HttpKeepAlive.LeftToTheNext`, and `HttpKeepAlive.PagesFramed` for two such
  requests), and a malformed start or a full buffer ends the service of the worker for good
  (`HttpKeepAlive.StuckForever`, `HttpKeepAlive.StuckWorker`).
- A request whose body has not been read leaves the part of it that is still on the socket in front of the
  next request (`HttpFraming.Connection.Discard`, `HttpKeepAlive.UnreadBody`, and
  `HttpKeepAlive.PostIsStandard` for such a request).
- `url_decode` reads behind its source where an escape is cut off there (`UrlCoding.UrlDecode`).
- `url_encode` passes over a byte of the buffer without writing it when an escape does not fit
  (`UrlCoding.UrlEncode`, `UrlCoding.EncodingFits`).
- `utf8ByteTable` covers the converter's output below 0x140000 only (`Utf8.StepsAreCharacters`).
- In `match_prefix`, an alternative that matches only the empty prefix counts as a match only if it is the
  last one (`Glob.FirstAlternative`).

## Model

| member | source | states |
|---|---|---|
| XmlDerivation.ParsedExactly | src/tinyxml/tinyxmlparser.cpp:1043-1247 | the parser accepts exactly the texts of a grammar that is written down without it, and returns the tree that the text means: for every text, tree and rest, the parse gives them if and only if the text is an element of the grammar with that tree and that rest behind it |
| XmlDerivation.ElementParsed | src/tinyxml/tinyxmlparser.cpp:1043-1176 | every text that is parsed is white space, `<`, a name, what stands in a tag and the content of the grammar, with unique attribute names and a matching end tag |
| XmlDerivation.TagRead | src/tinyxml/tinyxmlparser.cpp:1083-1175 | attributes with any white space around the name, the equals sign and the value, `/>`, or content and end tag are read as their attributes and children |
| XmlDerivation.ContentRead | src/tinyxml/tinyxmlparser.cpp:1179-1247 | any sequence of elements, words, comments, CDATA sections and unknown tags up to an end tag is read as their trees, words that come to nothing but white space left out |
| XmlDerivation.ContentParsed | src/tinyxml/tinyxmlparser.cpp:1179-1247 | whatever is read up to an end tag is such a sequence |
| XmlGrammar.ReferenceMeans | src/tinyxml/tinyxmlparser.cpp:445-512 | a numeric reference with digits in base 10, or in base 16 with letters in either case, however many, stands for the character whose number is the value of the digits modulo 256 |
| XmlGrammar.UnitRead | src/tinyxml/tinyxml.h:327-361 | each way to write a character is read as that character: itself, a named entity, a numeric reference with junk in front of its digits; an ampersand that starts none of these is dropped |
| XmlGrammar.UnitParsed | src/tinyxml/tinyxml.h:327-361 | whatever is read as one character is written in one of these ways |
| XmlGrammar.KeepRead | src/tinyxml/tinyxmlparser.cpp:585-597 | a quoted run of such characters is read as they are up to the first closing quote that is not part of a reference |
| XmlGrammar.WordsRead | src/tinyxml/tinyxmlparser.cpp:598-633 | words with any white space between them are read with one blank between them, whether characters are written as references or not |
| XmlGrammar.WordsParsed | src/tinyxml/tinyxmlparser.cpp:598-633 | whatever is read as a text is made of words with white space between them |
| XmlGrammar.ValueRead | src/tinyxml/tinyxmlparser.cpp:1425-1461 | a value between single or double quotes has its references decoded, and one without quotes is taken as it is up to white space, `/` or `>` |
| XmlText.EscapesWritten | src/tinyxml/tinyxml.cpp:83-131 | the escapes that are written, and that exactly the other characters from the blank on stay as they are |
| XmlTextRoundTrip.PassedThrough | src/tinyxml/tinyxml.cpp:60-82 | a hexadecimal reference is written as it is up to its semicolon or the last character of the string, and what follows is escaped |
| XmlText.CharacterClasses | src/tinyxml/tinyxmlparser.cpp:129-166 | white space and the characters of names by their codes |
| XmlTree.QuoteChosen | src/tinyxml/tinyxml.cpp:1210-1233 | a value is printed between single quotes exactly if it holds a double quote in front of its first NUL, and between double quotes otherwise |
| XmlTree.DeclarationMeans | src/tinyxml/tinyxmlparser.cpp:818-899 | a declaration is told by `<?xml` with letters in any case |
| XmlTree.PrintedLines | src/tinyxml/tinyxml.cpp:1766-1885 | for every tree, depth and style the printed text is made of lines: start and end tag as deep as the element, each child one step deeper, and a lone plain text on the line of its tags |
| XmlTextRoundTrip.AttributeValueRoundTrip | src/tinyxml/tinyxmlparser.cpp:438-637 | an attribute value printed between quotes, with something behind them, is read back byte for byte, with the cursor just past the closing quote, if and only if no `&#x` occurs in it |
| XmlTextRoundTrip.TextRoundTrip | src/tinyxml/tinyxmlparser.cpp:574-637 | a text printed in front of a tag is read back byte for byte if and only if it holds no `&#x` and no leading, trailing or doubled blank |
| XmlTextRoundTrip.TextReadBack | src/tinyxml/tinyxmlparser.cpp:597-637 | what reading makes of any printed text without `&#x`, white space in front of the next tag included: the text with runs of blanks squeezed and trimmed |
| XmlTextRoundTrip.NormalFixed | src/tinyxml/tinyxmlparser.cpp:597-637 | squeezing and trimming leaves exactly the texts without stray blanks unchanged |
| XmlTextRoundTrip.KeptLength | src/tinyxml/tinyxml.cpp:52-133 | whatever follows, a value with a hexadecimal reference is read back too short or swallows bytes behind its closing quote |
| XmlTextRoundTrip.DecodesBack | src/tinyxml/tinyxml.cpp:83-131 | the escape of one character decodes to that character and the cursor moves behind the escape |
| XmlRoundTrip.RootRoundTrip | src/tinyxml/tinyxmlparser.cpp:1043-1247 | parsing undoes printing: every printable element tree comes back equal, with the cursor right behind its text, for every indentation and line break made of white space (stream printing included) and whatever follows |
| XmlRoundTrip.RootReadBack | src/tinyxml/tinyxmlparser.cpp:1043-1247 | what comes back from the printed text of a tree with valid names, unique attribute names, no `&#x`, no blank and no adjacent plain texts, and no end mark inside a comment, CDATA section or unknown tag: the same tree with squeezed texts and with other values cut at a NUL |
| XmlRoundTrip.BackIsSame | src/tinyxml/tinyxmlparser.cpp:1043-1247 | such a tree comes back unchanged if and only if it is printable |
| XmlExact.RoundTripExactly | src/tinyxml/tinyxmlparser.cpp:1043-1247 | for every element tree, whatever characters it holds and whatever follows: its printed text parses to the same tree, with the cursor right behind it, if and only if the tree is printable |
| XmlStable.CStringExactly | src/tinyxml/tinyxmlparser.cpp:1043-1247 | the same for the printed text as the parser gets it, cut at its first NUL |
| XmlStable.ElementStable | src/tinyxml/tinyxmlparser.cpp:1043-1176 | a parse that succeeds gives the same tree whatever bytes are appended to the text, and leaves them behind what it left |
| XmlExact.NodeLags | src/tinyxml/tinyxmlparser.cpp:818-899 | whoever reads a node equal to the printed one has run past the printed text if the reader was ahead of it or the node is not clean |
| XmlExact.AttrsLag | src/tinyxml/tinyxmlparser.cpp:1083-1175 | a reader of the printed attributes stays ahead once it is ahead, and gets ahead at a value with a hexadecimal reference |
| XmlLag.KeepLags | src/tinyxml/tinyxmlparser.cpp:438-637 | a reader that is ahead inside the escaped text of a value reads the value only by running past its end, hexadecimal references passed through included |
| XmlLag.CondenseLags | src/tinyxml/tinyxmlparser.cpp:574-637 | the same where white space is condensed and more white space may follow the text |
| XmlExact.ReadWriteRead | src/tinyxml/tinyxmlparser.cpp:1043-1247 | parse, print and parse again is the same as parse, for any source text, if and only if the parsed element has clean texts |
| XmlParsed.ParsedElement | src/tinyxml/tinyxmlparser.cpp:1043-1176 | every element the parser returns has valid names, unique attribute names, no adjacent plain texts, no blank text and no end mark inside a comment or CDATA section |
| XmlParsed.PrintableParts | src/tinyxml/tinyxmlparser.cpp:1043-1247 | a tree is printable if and only if it is well formed, which the parser guarantees, and its characters are clean |
| XmlRoundTrip.TagAttrs | src/tinyxml/tinyxmlparser.cpp:1083-1175 | the attribute loop reads back the printed attributes in order and stops where the tag closes |
| XmlRoundTrip.AttrRoundTrip | src/tinyxml/tinyxmlparser.cpp:1392-1463 | one printed attribute is read back with its name and value, for either choice of quote |
| XmlRoundTrip.CommentRoundTrip | src/tinyxml/tinyxmlparser.cpp:1337-1389 | a printed comment without the end mark is read back |
| XmlRoundTrip.CDataRoundTrip | src/tinyxml/tinyxmlparser.cpp:1497-1530 | a printed CDATA section without the end mark is read back |
| XmlRoundTrip.UnknownRoundTrip | src/tinyxml/tinyxmlparser.cpp:1275-1307 | a printed unknown tag is identified as unknown and read back |
| XmlRoundTrip.PrintedIsCString | src/tinyxml/tinyxml.cpp:1766-1885 | the printed text holds no NUL, so the parser sees all of it |
| XmlScanner.ScanText | src/tinyxml/tinyxmlparser.cpp:574-637 | the two loops of ReadText compute the text and the cursor of the specification, null pointer included |
| XmlScanner.ScanEntity | src/tinyxml/tinyxmlparser.cpp:438-531 | decoding an entity at the cursor: numeric references read from the right, named entities, and a lone ampersand |
| XmlScanner.ScanNumber | src/tinyxml/tinyxmlparser.cpp:445-512 | the loop over the digits of a numeric reference, with its 32-bit multiplier |
| XmlScanner.ScanChar | src/tinyxml/tinyxml.h:327-361 | one character at the cursor, decoded if it is an entity |
| XmlScanner.SkipSpace | src/tinyxml/tinyxmlparser.cpp:314-362 | the cursor behind leading white space |
| XmlScanner.ScanName | src/tinyxml/tinyxmlparser.cpp:401-436 | the longest name at the cursor, or the null pointer |
| XmlScanner.ScanAttribute | src/tinyxml/tinyxmlparser.cpp:1392-1463 | name, `=` and value of an attribute into its fields, and the cursor behind |
| XmlScanner.ScanAttrValue | src/tinyxml/tinyxmlparser.cpp:1425-1461 | a quoted value, or an unquoted one up to white space, `/` or `>`, refused if it holds a quote |
| XmlScanner.EncodeString | src/tinyxml/tinyxml.cpp:52-133 | the loop appends the escaped string, hexadecimal references passed through |
| XmlScanner.CopyReference | src/tinyxml/tinyxml.cpp:60-82 | the inner loop that copies a hexadecimal reference up to its semicolon or the last character |
| XmlParser.ParseElementNode | src/tinyxml/tinyxmlparser.cpp:1043-1176 | on the heap: the node becomes a valid tree with the value, and the parse the cursor, that the specification gives |
| XmlParser.ParseTagNode | src/tinyxml/tinyxmlparser.cpp:1083-1175 | the attribute loop links in new attributes only, in order, and ends at `/>` or at the content |
| XmlParser.ParseAttributeNode | src/tinyxml/tinyxmlparser.cpp:1139-1173 | an attribute is added unless it cannot be read, ends the text or has a name that is taken |
| XmlParser.ReadValueNode | src/tinyxml/tinyxmlparser.cpp:1179-1247 | the children up to the next end tag are read and linked in order |
| XmlParser.ReadTextNode | src/tinyxml/tinyxmlparser.cpp:1189-1214 | a text node is linked in unless it is blank, and the cursor goes back to the `<` |
| XmlParser.ParseChild | src/tinyxml/tinyxmlparser.cpp:818-899 | the node kind is chosen by the first characters and the node is parsed by its own method |
| XmlAttributes.AttributeSet.Add | src/tinyxml/tinyxml.cpp:1514-1527 | the ring of the sentinel and the attributes stays well linked and the attribute comes last |
| XmlAttributes.AttributeSet.Remove | src/tinyxml/tinyxml.cpp:1529-1546 | the attribute is unlinked, the others keep their order, and the ring stays well linked with unique names |
| XmlAttributes.AttributeSet.Find | src/tinyxml/tinyxml.cpp:1572-1580 | the attribute of that name, or null if and only if there is none |
| XmlAttributes.AttributeSet.FindOrCreate | src/tinyxml/tinyxml.cpp:1583-1592 | nothing changes if the name is there; otherwise an empty attribute of that name is appended |
| XmlAttributes.AttributeSet.Walk | src/tinyxml/tinyxml.cpp:1170-1188 | a walk by First and Next sees the attributes in order up to the first later one with empty name and value, which Next takes for the sentinel |
| XmlTree.Visited | src/tinyxml/tinyxml.cpp:1170-1188 | such a walk sees all attributes if and only if no attribute but the first has an empty name and value |
| XmlTree.SetAttrMeans | src/tinyxml/tinyxml.cpp:780-786 | exactly the attribute of that name gets the value, in its place, and if there is none it comes last |
| XmlAttributes.AttributeSet.Set | src/tinyxml/tinyxml.cpp:780-786 | SetAttribute overwrites the value in place or appends the attribute |
| XmlDom.Node.LinkEndChild | src/tinyxml/tinyxml.cpp:186-211 | appends to the list of children; next and prev stay inverse, the end pointers and the parent right; a document is refused |
| XmlDom.Node.LinkBefore | src/tinyxml/tinyxml.cpp:230-260 | inserts in front of the k-th child and keeps the list well linked |
| XmlDom.Node.LinkAfter | src/tinyxml/tinyxml.cpp:263-293 | inserts behind the k-th child and keeps the list well linked |
| XmlDom.Node.LinkInstead | src/tinyxml/tinyxml.cpp:296-332 | puts a node in the place of the k-th child and keeps the list well linked |
| XmlDom.Node.RemoveChild | src/tinyxml/tinyxml.cpp:335-359 | deletes the k-th child from the list; refused if the parent is another node |
| XmlDom.Node.Append | src/tinyxml/tinyxml.cpp:186-211 | on whole trees: a document is refused with null and nothing changes; otherwise the abstract list of child trees gets the new tree at its end and nothing else changes |
| XmlDom.Node.InsertBeforeChild | src/tinyxml/tinyxml.cpp:230-260 | refused exactly for a foreign position or a document, and nothing changes then; otherwise a fresh copy, the only new part of the tree, comes in front of the k-th child |
| XmlDom.Node.InsertAfterChild | src/tinyxml/tinyxml.cpp:263-293 | refused exactly for a foreign position or a document, and nothing changes then; otherwise a fresh copy, the only new part of the tree, comes behind the k-th child |
| XmlDom.Node.ReplaceChild | src/tinyxml/tinyxml.cpp:296-332 | refused exactly for a foreign position or a document, and nothing changes then; otherwise a fresh copy, the only new part of the tree, takes the place of the k-th child |
| XmlDom.Node.Remove | src/tinyxml/tinyxml.cpp:335-359 | on whole trees: the k-th child tree is deleted and the other trees stay what they were |
| XmlEdits.EditAll | src/tinyxml/tinyxml.cpp:186-359 | any list of appends, inserts, replacements and removals at any places of one tree: the heap stays a valid tree and its value is that of the same edits on the value, refused ones and those at places that are not there skipped |
| XmlEdits.EditAt | src/tinyxml/tinyxml.cpp:186-359 | one edit of a node anywhere below: its ancestors and their other children stay valid trees, and the value of the root changes at that place only |
| XmlEdits.EditOne | src/tinyxml/tinyxml.cpp:186-359 | one edit at the k-th child does to the children what it does to the sequence, and changes nothing but the node's own tree and the node that is linked |
| XmlEdits.NthChild | src/tinyxml/tinyxml.h:549-560 | walking along the list comes to the k-th child, or to null if there is none |
| XmlDom.Node.SetAttribute | src/tinyxml/tinyxml.cpp:780-786 | the attribute list of the tree changes and its name and children do not |
| XmlDom.Node.Clone | src/tinyxml/tinyxml.cpp:853-897 | a new tree, disjoint from the old one, with the copied value of every node, for every depth and width; the original is unchanged |
| XmlCopied.CloneTree | src/tinyxml/tinyxml.cpp:853-897 | the clone is fresh and equals the original if and only if no value holds a NUL and no attribute but the first looks like the sentinel |
| XmlCopied.CopyIsFaithful | src/tinyxml/tinyxml.cpp:853-897 | for every tree that nodes can hold, copying is the identity exactly under that condition |
| XmlCopied.TreesAreWellNamed | src/tinyxml/tinyxml.cpp:1514-1592 | the attribute names of every tree on the heap are unique C strings |
| XmlPrinter.Printer.Accept | src/tinyxml/tinyxml.cpp:875-886 | visiting a tree on the heap appends exactly the printed text of its value and restores depth and simple text mode |
| XmlPrinter.Printer.VisitEnter | src/tinyxml/tinyxml.cpp:1766-1800 | indentation, opening tag and attributes; simple text mode is entered exactly for a single plain text child |
| XmlPrinter.Printer.VisitExit | src/tinyxml/tinyxml.cpp:1803-1826 | the closing tag, if there are children, indented unless in simple text mode |
| XmlPrinter.Printer.PrintAttributes | src/tinyxml/tinyxml.cpp:1772-1776 | the loop over First and Next prints what the walk sees |
| XmlPrinter.PartsOfElement | src/tinyxml/tinyxml.cpp:1766-1826 | VisitEnter, the children and VisitExit together print the element |
| XmlPrinter.PrintAndParse | src/tinyxml/tinyxmlparser.cpp:1043-1247 | end to end on the heap: print a tree, parse the buffer as a C string into a new node, and its value is the same and nothing but the line break is left if and only if the tree is printable |
| XmlPrinter.StreamAndParse | src/tinyxml/tinyxml.h:1768-1773 | the same with SetStreamPrinting, which leaves out indentation and line breaks |
| SocketQueue.QueueIsFifo | src/mongoose.c:4486-4581 | in every state of every run of the master and the workers, the sockets put in are those taken out followed by those queued, in order, and at most 20 are queued |
| SocketQueue.CountersStaySmall | src/mongoose.c:4501-4505 | in every state of every run 0 <= tail <= 20 and tail <= head <= 40, so the counters cannot overflow |
| SocketQueue.NoLostWakeUp | src/mongoose.c:4486-4581 | in every state of every run, a worker sleeps only while signalled workers are on their way for all queued sockets, and the master sleeps only on a full queue |
| SocketQueue.NeverAllAsleep | src/mongoose.c:4486-4581 | with at least one worker, the master and all workers never sleep at once |
| SocketQueue.NextInv | src/mongoose.c:4486-4581 | every step, spurious wake-ups and every choice of woken threads included, keeps the invariant |
| SocketQueue.TakeRemoves | src/mongoose.c:4495-4505 | taking a socket and wrapping both counters removes the oldest socket and no other |
| SocketQueue.PutAppends | src/mongoose.c:4572-4575 | putting a socket in appends it and touches no queued slot |
| SocketQueue.Context.Produce | src/mongoose.c:4564-4581 | the critical section of produce_socket on the array: waits exactly on a full queue, else appends |
| SocketQueue.Context.Consume | src/mongoose.c:4486-4513 | the critical section of consume_socket with its wrapping loop: waits exactly on an empty queue, else takes the oldest |
| Glob.MatchOneMeans | src/mongoose.c:832-869 | without a bar the result is -1 exactly when no prefix matches, and otherwise the length of the greediest match |
| Glob.GreediestIsUnique | src/mongoose.c:842-868 | the result is determined by the declarative relation: it is the match whose star lengths come last lexicographically |
| Glob.DoubleStarMeans | src/mongoose.c:849-863 | for `**` in front of any pattern: -1 exactly if the pattern matches behind no prefix, and otherwise the longest prefix that works and the match behind it |
| Glob.SingleStarMeans | src/mongoose.c:849-863 | for `*` in front of a pattern that does not start with a star: the same over the prefixes without a slash |
| Glob.FirstAlternative | src/mongoose.c:836-840 | with bars the result is that of the first alternative with a positive result, and that of the last alternative if there is none |
| Glob.PositiveAlternative | src/mongoose.c:836-840 | with bars the result is positive if and only if some alternative alone gives a positive result |
| Glob.AlternativesMeans | src/mongoose.c:836-840 | the alternatives hold no bar and joined by bars make up the pattern |
| Glob.MatchPrefix | src/mongoose.c:832-869 | the recursive function with its search for a bar computes the specified result and terminates |
| Glob.MatchFromStar | src/mongoose.c:849-863 | the loop that tries ever shorter runs for a star finds the longest that works |
| Md5.Md5 | src/mongoose.c:2146-2162 | whatever pieces a message comes in, the digest state is the fold of the compression function over the message padded as in sections 3.1 and 3.2 of RFC 1321 |
| Md5.PaddedMeans | src/mongoose.c:2104-2130 | the padded message byte by byte: the message, 0x80, zeros up to 56 modulo 64, and eight bytes that are eight times the length modulo 2^64, lowest byte first |
| Md5.Context.Update | src/mongoose.c:2068-2102 | the context goes on to represent the message so far followed by the new bytes, for every length below 2^32 |
| Md5.Context.Final | src/mongoose.c:2104-2130 | the state returned is the fold over the padded message, in one last block or two |
| Md5.CountAdded | src/mongoose.c:2071-2074 | the carry test on the low word and the two additions keep the words at eight times the byte count |
| Md5.WordsAreLength | src/mongoose.c:2123-2124 | the two words are eight times the byte count modulo 2^64 and, written in order, the length field |
| GeoMap.InGridMeans | src/map.cpp:214-226 | both indices of a point fit 16 bits if and only if the point lies in the square of 65535 cells beyond the origin |
| GeoMap.PruningIsExact | src/map.cpp:79-131 | a query collects from the cells it looks at exactly the multiset that a scan of all cells would collect, for rectangles and circles |
| GeoMap.RegionIsCovered | src/map.cpp:214-226 | the cell of every position in the region is among the cells the query looks at |
| GeoMap.AnswerMeans | src/map.cpp:158-174 | the answer holds as many of the found records as allowed, and of two kept records the first, and of a kept and a dropped record the kept one, is not later by time order and not farther from the center by distance order |
| GeoMap.SortMeans | src/map.cpp:141-168 | the sort orders by the chosen key, permutes the list and keeps equal keys in order |
| GeoMap.KeyOrders | src/map.cpp:141-153 | the key orders by time, or by the sum of the squared differences of the coordinates from the center |
| GeoMap.BoxIdsDistinct | src/map.cpp:79-104 | no cell is looked at twice |
| GeoMap.BoxIdListed | src/map.cpp:79-104 | every cell of the box is looked at |
| GeoMap.RecentMeans | src/map.cpp:62-70 | the unsigned subtraction keeps exactly the reports of the last `elapsed` seconds and none from the future; 0 means no limit |
| GeoMap.PassesMeans | src/map.cpp:33-76 | a record passes if and only if it lies in the rectangle or the circle, belongs to the group, if one is asked for, and is recent |
| GeoMap.ColumnMeans | src/map.cpp:214-226 | the column of a point, without division: the multiples of the width between which it lies |
| GeoMap.RowMeans | src/map.cpp:214-226 | the same for the row |
| GeoMap.RegionInBox | src/map.cpp:107-116 | a circle lies in the square the query builds around it |
| GridMap.GlobalMap.GetCells | src/map.cpp:79-104 | the nested loops collect the present cells of the box row by row |
| GridMap.MapCell.DoQuery | src/map.cpp:33-76 | appends the records of the cell that pass the region, group and time filters, in the order of the devices |
| GridMap.GlobalMap.SpatialQuery | src/map.cpp:158-174 | the answer is the cut list of what the scanned cells hold, in the order of time or of the distance from the center |
| GridMap.GlobalMap.Update | src/map.cpp:176-196 | the report replaces the record of its device in the cell of its position, made if missing, and nothing else changes |
| LocServer.Run | src/server.cpp:328-337 | any run of updates on a new server: the history is the reports, each record in each cell is the last report of its device that fell there, and the pool holds the last report of each device |
| LocServer.Server.Update | src/server.cpp:328-337 | one report more: the cells and the pool go on to hold the last reports, and only new cells are added |
| LocServer.Server.WhereIs | src/pool.cpp:27-37 | the pool answers with the last report of the device, which is also its record in the cell of its position |
| LocServer.LastIsInItsCell | src/pool.cpp:13-17 | the last report of a device is the one on record in the cell it lies in |
| LocServer.CurrentIff | src/map.cpp:176-196 | the record of a device in a cell is its current position if and only if its last report fell in that cell |
| LocServer.QueryFinds | src/map.cpp:33-131 | a query finds exactly the reports in its rectangle or circle, of its group, if it has one, and recent enough, that are the last of their device in their cell |
| LocServer.LeftBehind | src/map.cpp:176-196 | after two reports of a device from different cells a query around the first finds it there, although it has left the region |
| LocServer.MoveAndQuery | src/map.cpp:158-196 | that run on a new server: the pool answers with the new position and the query with the old one |
| HttpFraming.RequestLenStays | src/mongoose.c:1765-1783 | once the answer of get_request_len is not 0 it is the same whatever bytes follow, so stale bytes behind the request do no harm |
| HttpFraming.MalformedBytes | src/mongoose.c:1770-1774 | which bytes are malformed, by their codes |
| HttpFraming.ReadRequest | src/mongoose.c:2832-2850 | for every way of splitting the input into reads without error, the result is that of get_request_len on all that fits the buffer, and no byte is lost; what is in the buffer then is given for every splitting |
| HttpFraming.PositiveLenMeans | src/mongoose.c:1765-1783 | a positive length is the first place where a blank line ends, with nothing malformed up to its end |
| HttpFraming.MalformedMeans | src/mongoose.c:1765-1783 | -1 if and only if a control character comes before the end of any blank line |
| HttpFraming.ZeroLenMeans | src/mongoose.c:1765-1783 | 0 if and only if there is no blank line and no control character before the last byte |
| HttpFraming.GetRequestLen | src/mongoose.c:1765-1783 | the scanning loop computes that length |
| HttpFraming.Connection.Read | src/mongoose.c:1471-1514 | mg_read hands out the next bytes of the body, buffered ones first, takes no byte beyond the content length, and falls short only at the end of the body or the stream |
| HttpFraming.Connection.ReadEach | src/mongoose.c:1471-1514 | reads of any sizes together return the body in order, each byte once |
| HttpFraming.Connection.Discard | src/mongoose.c:4470-4475 | where in the bytes behind the request the remaining ones begin, for every content length; they are exactly what follows the body if and only if the whole body was in the buffer or has been read |
| HttpRequest.ParsePrint | src/mongoose.c:2767-2820 | parsing a request in the standard form gives back its method, URI, version and headers |
| HttpRequest.ParseAs | src/mongoose.c:2767-2820 | the same for any number of blanks between the words and behind the colons, line breaks with or without carriage return, and white space in front |
| HttpRequest.FramedAs | src/mongoose.c:1765-1783 | the end of a request in any such layout is found right behind it |
| HttpRequest.PrintFramed | src/mongoose.c:1765-1783 | the end of such a request is found right behind it, for any headers |
| HttpRequest.SkipsWord | src/mongoose.c:728-775 | a word is split off at its delimiter, and the white space behind it is skipped |
| HttpRequest.ParseHttpHeaders | src/mongoose.c:2767-2777 | the loop over at most 64 headers |
| HttpRequest.GetHeader | src/mongoose.c:778-787 | none exactly if no header has the name, in any case, and otherwise the value of the first that has it |
| HttpRequest.SameMeans | src/mongoose.c:643-666 | equal ignoring case: equal length, and equal characters but for a difference of 32 between letters |
| HttpRequest.JudgeMeans | src/mongoose.c:4438-4446 | which requests are handled: by method, URI and version, written out |
| HttpRequest.KeepAliveMeans | src/mongoose.c:874-885 | what a request asks for: by the first Connection header if there is one, and otherwise by the version |
| HttpRequest.NoLength | src/mongoose.c:4453-4460 | without a Content-Length header, POST and PUT have a body of unknown length and other requests have none |
| HttpRequest.StrToLLMeans | src/mongoose.c:4453-4454 | strtoll on white space, a sign, decimal digits and anything: the number, clamped to 64 bits |
| HttpRequest.LengthRead | src/mongoose.c:4453-4454 | strtoll reads a printed number below 2^63 back |
| HttpRequest.WithLengthMeans | src/mongoose.c:4453-4460 | a request with a Content-Length header behind any headers of other names has a body of that length |
| HttpKeepAlive.Worker.Run | src/mongoose.c:4515-4560 | a worker over any list of connections: what each is served follows from the bytes found in the buffer and those sent, and what it leaves in the buffer is what the next one finds; a stuck buffer stays as it is |
| HttpKeepAlive.Worker.Process | src/mongoose.c:4422-4483 | one connection on a buffer with any contents: if no read fails, the exchanges are those of the bytes buffered and sent, however the reads split them, whenever that does not decide where a request starts; what is left is exactly what was not taken |
| HttpKeepAlive.Worker.ServeOne | src/mongoose.c:4429-4475 | one pass: what it takes of the bytes to come and what it leaves, body read or not, and each pass that goes on leaves less |
| HttpKeepAlive.OwnRequests | src/mongoose.c:4422-4483 | a client is served its own requests whatever it sends if and only if the buffer is empty when it comes |
| HttpKeepAlive.LeftoverFirst | src/mongoose.c:4429-4446 | a request left in the buffer is served before anything the next client sends |
| HttpKeepAlive.PipelineServed | src/mongoose.c:4422-4483 | requests in the standard form, sent one behind the other with their bodies, are served one by one up to the first that closes the connection, and exactly the others are left |
| HttpKeepAlive.OwnExchanges | src/mongoose.c:4515-4560 | over any list of connections that send such requests and keep the connection to the end, each is served exactly its own |
| HttpKeepAlive.StuckForever | src/mongoose.c:4429-4437 | once the buffer is full without the end of a request, or starts with a malformed one, no later connection of the worker is served |
| HttpKeepAlive.LeftToTheNext | src/mongoose.c:4422-4483 | two messages in one read, the first of which closes the connection: on a new worker the second one is served to the next client, whatever that sends itself |
| HttpKeepAlive.PagesFramed | src/mongoose.c:4422-4483 | two such messages: GET /a HTTP/1.1 and GET /b HTTP/1.1 without keep-alive |
| HttpKeepAlive.StuckWorker | src/mongoose.c:4429-4437 | a concrete run in which two control characters end the service of a worker for all later connections |
| HttpKeepAlive.ReadBody | src/mongoose.c:1471-1514 | reading until mg_read returns 0 gives the body up to its content length or the end of the stream |
| HttpKeepAlive.UnreadBody | src/mongoose.c:4470-4475 | two passes of the loop when the handler does not read a body that is still on the socket and is itself a request: the body is served as the next request |
| HttpKeepAlive.PostIsStandard | src/mongoose.c:4453-4460 | such a message: POST / HTTP/1.1 with Content-Length: 18 and GET / HTTP/1.1 as its body |
| UrlCoding.DecodeEncode | src/mongoose.c:2449-2467 | decoding undoes encoding for every byte string, as a form field or not |
| UrlCoding.EscapeDecodes | src/mongoose.c:1596-1620 | an escape with digits in either case is read as the byte with that number |
| UrlCoding.ByteDecodes | src/mongoose.c:1596-1620 | every other byte is read as it is, and a plus sign in a form as a blank |
| UrlCoding.EncodedAlphabet | src/mongoose.c:2449-2467 | the encoding holds letters, digits, the marks that are not escaped, and percent signs only |
| UrlCoding.SafeUnchanged | src/mongoose.c:2449-2467 | letters, digits and those marks are not changed by encoding |
| UrlCoding.UrlDecode | src/mongoose.c:1596-1620 | the result is the decoding cut to the buffer, with a final NUL; an escape that the end of the source cuts off is completed with the bytes behind it; also when source and destination are the same buffer |
| UrlCoding.UrlEncode | src/mongoose.c:2449-2467 | which places of the buffer are written, with what, and which are passed over when an escape does not fit |
| UrlCoding.EncodingFits | src/mongoose.c:2449-2467 | the buffer holds the whole encoding if and only if it has room for it |
| UrlCoding.EncodeAtMostTriples | src/mongoose.c:2449-2467 | 3n + 1 bytes always suffice |
| UrlCoding.EncodeAndDecode | src/mongoose.c:1596-1620 | encoding into 3n + 1 bytes and decoding in place gives the string back |
| Utf8.MaskedIsSum | src/tinyxml/tinyxmlparser.cpp:108-121 | `(input or 0x80) and 0xBF` on a byte is 0x80 plus the low six bits |
| Utf8.MarkedIsSum | src/tinyxml/tinyxmlparser.cpp:122-124 | the first byte, the mark of the length or the bits left, is their sum |
| Utf8.StepsAreCharacters | src/tinyxml/tinyxmlparser.cpp:66-85 | stepping by the table lands on the character boundaries if and only if every code point is below 0x140000 |
| Utf8.PayloadOfEncoded | src/tinyxml/tinyxmlparser.cpp:88-126 | the payload bits of the bytes written are the code point |
| Utf8.ShortestForm | src/tinyxml/tinyxmlparser.cpp:88-126 | no shorter sequence of bytes has these payload bits |
| Utf8.DecodeAll | src/tinyxml/tinyxmlparser.cpp:66-126 | writing code points below 0x140000 and stepping back over the bytes gives the same code points |
| Utf8.LeadTellsLength | src/tinyxml/tinyxmlparser.cpp:66-85 | the first byte tells the length exactly below 0x140000, and less above |
| Utf8.FirstByteDiffers | src/tinyxml/tinyxmlparser.cpp:88-126 | later bytes are in 0x80..0xBF and a first byte never is |
| Utf8.ConvertUTF32ToUTF8 | src/tinyxml/tinyxmlparser.cpp:88-126 | the bytes written from the last to the first are those of section 3 of RFC 3629 |
| TinyString.String.Append | src/tinyxml/tinystr.cpp:68-78 | contents are concatenated, the terminator is in place, and the bound on copying is kept |
| TinyString.String.Reserve | src/tinyxml/tinystr.cpp:37-46 | contents are kept, capacity grows to the request and never shrinks |
| TinyString.String.Assign | src/tinyxml/tinystr.cpp:49-65 | contents are replaced and the capacity is at most three times the length plus 24 |
| TinyString.AppendAll | src/tinyxml/tinystr.cpp:37-78 | over any run of appends to a new string, reserve copies at most twice the bytes appended and the capacity is at most twice the length |
| TinyString.Plus | src/tinyxml/tinystr.cpp:81-88 | concatenation allocates once, at the exact size, and copies nothing twice |
| TinyString.String.Find | src/tinyxml/tinystr.h:167-176 | the first occurrence behind the offset, as far as the first NUL; a NUL itself is never found |

## Left out

- XmlParser.ParseChild: a declaration (`<?xml`) among the children counts as a failure of the parse; declarations, and printing or parsing a whole document, are not modelled.
- XmlParser.ParseElementNode: the contents of the tree after a failed parse are not specified beyond being a valid tree.
- XmlDom.Node.RemoveChild: unlinks the child and leaves out its destruction; the same holds for ReplaceChild.
- XmlDom.Node.LinkEndChild: texts and comments as parents, which nothing in the source makes, are not modelled.
- XmlEdits.EditAll: a node that is linked itself is a tree of its own, children are addressed by their positions, and a removal that finds no child is skipped.
- XmlAttributes.AttributeSet.Remove: takes an attribute of the set, as the source asserts; asserts are otherwise ignored, as in a release build.
- XmlAttributes.AttributeSet.Add: does not repeat the assertion that the name is new; FindOrCreate and AddNew establish it.
- TinyXML stream input, row and column tracking, error texts and identifiers, files, UTF-8 mode parsing and white space left uncondensed are not modelled.
- Bytes are `char` values; values above 255 are not excluded, and nothing is claimed about them in particular.
- Walks over children in the visitor cannot be cut short, because every visit of the printer returns true.
- Glob.MatchPrefix: the byte behind the pattern, which the source reads after a final star, is taken to be no star; pattern and string are C strings.
- Md5.Context.Final: leaves out byteReverse, the copy of the state to the digest and the clearing of the context; blocks are bytes whose words are little-endian. The compression function is any function.
- SocketQueue.NextInv: stop_flag is 0 throughout; shutdown sets it outside the mutex and is not modelled. The mutex is the atomicity of a step.
- HttpFraming.Socket.Pull: stands for the operating system: sizes of reads are arbitrary, and a read of 0 bytes means that the peer has closed. Waiting, SSL and the stop flag are not modelled.
- HttpFraming.GetRequestLen: isprint is that of the C locale.
- UrlCoding.UrlDecode: the bytes that the code reads behind the source must be part of the buffer. Source and destination are the same buffer or disjoint.
- HttpKeepAlive.Worker.Process: says what is served only if no read fails and if it does not depend on how the reads split the bytes, which it does behind a body that is not read and behind a request of an unknown version on a connection that is kept alive (src/mongoose.c:4446-4450).
- HttpKeepAlive.KeptAlive: must_close and the status 401 (src/mongoose.c:874-885) are set by the handler and are one parameter, a function of the request and the body read; the answers themselves are not modelled.
- HttpKeepAlive.Worker.Run: the connections come as a list; SocketQueue has the queue they come from.
- HttpRequest.Parse: works on values; the NULs that the source writes into the request in the buffer are not modelled, and quote characters, which are not used for requests, are left out.
- GeoMap.PruningIsExact: coordinates are reals, so rounding of floats is not modelled; points and regions below the origin, and indices beyond 16 bits, where the conversions of the source are undefined, are excluded.
- GeoMap.RecentMeans: the clock is a parameter that is constant during a query.
- GeoMap.SortMeans: list.sort is modelled by a stable insertion, and an order code outside the enumeration is not modelled.
- GridMap.GlobalMap.Update: updates come one after the other; the writes to the map of cells that the source makes under a shared lock are not modelled as concurrent.
- LocServer.Server.Update: leaves out the synchronisation with the database; reports are values, so later changes to a shared report object are not modelled.
- TinyString.String.Append: the source must not be part of the string itself, which the code does not check; the null representation that empty strings share is one object per string here.
- Sockets, SSL, files, CGI, SSI, WebDAV, directory listings, logging, access control lists and date parsing in src/mongoose.c, the message queue, the database writer, configuration and start-up, and the tce code generator are I/O or glue and are not modelled.
