# A verified model of the LDAL core

LDAL is a C library that puts devices behind one interface. This project models the parts of it whose
correctness is least evident from reading one function, and proves what they are for:

* the **JSON parser and printer** (`src/cJSON.c`): a recursive descent parser over a moving cursor, and a
  printer in two passes, one that computes a length and one that writes;
* the **JSON tree in memory**: nodes that the parser allocates and fills in, sibling lists that are relinked in
  place, reference nodes that share what another node owns, and deletion;
* the **JSON-RPC connection** (`src/jsonrpc-c.c`): a receive buffer that cuts documents out of a byte
  stream by looking at where the parser stopped, and the procedure table behind it;
* the **mirror-bit ring buffer** (`src/ringbuffer.c`) and the memory device that threads share under a lock;
* the **device registry** (`src/ldal.c` over `inc/list.h`), whose lookup matches name prefixes;
* the **HJ 212 checksum** (`src/class/ldal_analog.c`), of whose register only the high byte survives a step.

Code that works by changing things step by step is modelled by methods over cursors, arrays and objects. Each
is proved against a function, and the lemmas are about that function.

| file | module | what it holds |
|---|---|---|
| `text.dfy` | `Text` | bytes, C strings, the cursor |
| `json.dfy` | `Json` | the value of a document, names |
| `number.dfy`, `jsonstring.dfy` | `JsonNumber`, `JsonString` | the two literals with inner structure, both directions |
| `jsonparse.dfy`, `jsonprint.dfy` | `JsonParse`, `JsonPrint` | what is parsed and what is printed, as functions |
| `jsongrammar.dfy` | `JsonGrammar` | the texts of RFC 8259 byte by byte, and what the parser makes of each |
| `jsonroundtrip.dfy`, `jsoncut.dfy` | `JsonRoundTrip`, `JsonCut` | what is printed is such a text; parsing truncated text |
| `jsonnode.dfy`, `jsonbuild.dfy`, `jsonwrite.dfy` | `JsonNode`, `JsonBuild`, `JsonWrite` | nodes, references and deletion; the parser and the printer as they run |
| `jsonecho.dfy` | `JsonEcho` | parsing what was printed from nodes |
| `procedures.dfy`, `connection.dfy`, `printedstream.dfy` | `Procedures`, `Connection`, `PrintedStreams` | requests, framing, framing of printed documents |
| `ringbuffer.dfy`, `memory.dfy` | `RingBuffer`, `MemoryDevice` | the queue, the shared device |
| `list.dfy`, `registry.dfy` | `IntrusiveList`, `Registry` | the circular list, the devices on it |
| `crc.dfy` | `Checksum` | `CRC16_212` |

`dafny verify dfyconfig.toml` checks all of it.

## Reading the model

* A text is the sequence of bytes before its terminator; `At(text, p)` is zero from its end on. A parsing step
  returns `Ok(value, next)`, `Fail(at)` or `Unspecified`. The last one stands for runs the C code does not
  define: reading past the terminator after a final backslash, and a `\u` without four hexadecimal digits, whose
  `sscanf` leaves its variable unset.
* `stream_cmp` compares past the end of its keyword when the input ends there too (`src/cJSON.c:318`). The model
  stops at the end of the keyword. A failed comparison consumes the bytes that agreed, as in the code.
* A parsed number is the triple the code holds before it calls `pow`: signed digits, minus the count of fraction
  digits, signed exponent. `NumberValue` is its value over exact rationals. Printed numbers are 32-bit integers.
* In `JsonNode` and `JsonBuild` the set of allocated blocks is a ghost value that goes through every operation. A
  block can only be freed while it is in the set, so freeing twice would not verify. A ghost `Forest` describes the
  nodes that hang from a pointer: their names and values, what each owns, and its children.
* A read of a connection is a non-empty chunk of at most the size asked for; a response is a record appended to a
  sequence.

## Where the code does not do what it is meant to do

The model keeps the code as it is; each point is a lemma or part of a contract.

* **Bytes lost behind a document.** `connection_cb` moves what follows a document to the front of its buffer and
  only then measures it, at the place where it was before (`src/jsonrpc-c.c:189-191`). What follows is kept exactly
  if there is nothing or it is at least two bytes shorter than the document with the white space before it;
  otherwise its last bytes are lost, as many as the document had or all (`ShiftCases`, `ShiftExact`). A connection
  stays on its stream exactly as long as no read breaks this or the next two rules (`StepsOnTrack`), and
  `FirstLoss` says what the first read does that breaks one. `{"a":1} {"b":2}` in one read loses the second request
  (`Pipelined`), and `{}{"a":"x"}` followed by `{"b":2}` ends in a parse error (`TornApart`). A client that sends
  nothing but white space behind a document until it has been taken loses no request and gets every response
  (`EveryRequest`, `EveryReply`).
* **Reads that end after a decimal point.** Input that is cut right after the point of a number makes the parser stop
  one byte early, which the connection answers with a parse error (`StreamCut`, and `PointExample` for `[1.5]`).
* **Reads that end inside an escape.** The parser then runs past the terminator (`StreamCut`). A scan from left to
  right tells both cases before the read (`InEscape`, `AtPoint`).
* **One document per read.** `connection_cb` takes at most one document from what has arrived, so that a client
  that sends several at once and then waits is left waiting (`OnePerRead`, `TakenPerRead`).
* **Trailing commas.** After a trailing comma the parser takes the closing bracket, leaves the loop and then asks
  for a second one (`src/cJSON.c:391-409`, `489-513`), so that `[1,]` fails and `[1,]]` is an array
  (`JsonGrammar.TrailingComma`, `TrailingCommaInObject`).
* **Stray letters.** The comparisons with the three keywords consume what agrees even where they fail. The cursor is
  left where it was exactly before a byte that starts none of them (`WordStart`), and otherwise the value is read
  from where they stopped (`ValueStart`, `StrayValue`): `nft[]` is read as `[]` (`StrayExample`).
* **Surrogate pairs.** Line 204 ors bit 16 into the payload of a pair where it has to be added. The character is
  right exactly when bit 6 of the high half is clear (`CombineExact`, `UnicodeEscapes`); U+20000 is read as U+10000
  (`CombineFails`).
* **Escaped zeros and lone surrogates** are consumed and write nothing (`SilentEscape`, `SilentPair`).
* **Forced bulk write.** When the indices share a mirror and the clamped block exceeds the free space, both
  mirrors flip and the buffer ends up empty instead of full (`PutForce`, `ForceExact`); two bytes written over three
  in a buffer of four lose all five (`EverythingLost`).
* **Registration.** `ldal_device_register` returns `LDAL_EOK` even where it refuses, against its own comment
  (`src/ldal.c:318-319`, `379`); only `is_init` tells. The device counter has sixteen bits and wraps.
* **Names in a used buffer.** The device name is copied without its terminator, so that the stored name is the
  name asked for exactly when the buffer held a zero there (`StoredName`).
* **A name that leaks.** `cJSON_ReplaceItemInObject` overwrites the name pointer of the new item without freeing
  what it pointed to (`ReplaceItemInObject`: the old name stays allocated).
* **Checksum strength.** One changed byte is always detected, but of any two positions the second has exactly one
  value that hides a change of the first (`TwoBytes`), and the checksum of a non-empty buffer is a function of
  its own high byte (`HighDetermines`).

## Model

| member | source | states |
|---|---|---|
| Text.Skip | src/cJSON.c:277-283 | the cursor stops at the first byte that is no white space, and only white space lies behind it |
| Text.SkipUnique | src/cJSON.c:277-283 | no other position has these two properties |
| Text.SpaceBytes | src/cJSON.c:280 | white space is the six bytes of the C locale |
| Text.Cursor.SkipSpace | src/cJSON.c:277-283 | the loop moves the cursor to where `Skip` says |
| Text.UpToNul | src/jsonrpc-c.c:191 | a C string in memory ends at its first zero and holds none |
| Text.StrLen | src/cJSON.c:434-434 | `strlen` finds the first zero of an array |
| Json.StrCaseEqual | src/cJSON.c:35-48 | two C strings compare equal exactly when they have the same length and the same letters, case aside |
| Json.LowerLetters | src/cJSON.c:40-47 | the 26 letters lose their case |
| Json.OtherBytes | src/cJSON.c:40-47 | no other byte changes |
| JsonNumber.ReadNumber | src/cJSON.c:100-143 | the method leaves cursor and item as the function `ParseNumber` says |
| JsonNumber.ReadMantissa | src/cJSON.c:108-123 | one optional zero, digits that do not start with one, and a fraction that needs a digit after the point |
| JsonNumber.ReadExponent | src/cJSON.c:124-135 | an exponent mark is consumed even without digits after it |
| JsonNumber.ReadDigits | src/cJSON.c:111-114 | a digit loop consumes the maximal run and accumulates it in base ten |
| JsonNumber.ParseNumber | src/cJSON.c:100-143 | never fails, stays in the text, and advances over a sign or a digit |
| JsonNumber.DecFromIsPositional | src/cJSON.c:112-119 | the left-to-right accumulation equals the positional value of the digits, on top of what was read before |
| JsonNumber.PartsRead | src/cJSON.c:100-135 | every text of the number grammar of section 6 of RFC 8259 is split into sign, digits, fraction count and exponent and consumed whole |
| JsonNumber.PartsDenote | src/cJSON.c:137 | the exact value of those parts is the rational the text denotes |
| JsonNumber.NumberDenotation | src/cJSON.c:100-143 | both together: for every grammatical number, at every position and before every delimiter |
| JsonNumber.LeadingZeroAccepted | src/cJSON.c:108-114 | beyond the grammar, one leading zero before other digits is skipped |
| JsonNumber.IntPrinted | src/cJSON.c:152-153 | a printed integer is a text of the number grammar without fraction and exponent, and denotes the integer |
| JsonNumber.IntRoundTrip | src/cJSON.c:100-153 | a printed integer is parsed back to itself, anywhere in a text and before every delimiter |
| JsonNumber.PrintIntFits | src/cJSON.c:152-153 | every 32-bit integer with its terminator takes at most 12 of the 21 bytes allocated |
| JsonString.ReadString | src/cJSON.c:170-228 | both passes together leave cursor and string as the function `ParseString` says, with no byte written out of bounds |
| JsonString.ParseString | src/cJSON.c:170-228 | fails exactly where no quote stands, without moving; success moves past at least the quote |
| JsonString.CountLiteral | src/cJSON.c:175 | the first loop computes the count of the counting pass |
| JsonString.CountBoundsBytes | src/cJSON.c:175-222 | for every literal the second pass accepts, the first pass ends at the same byte and counts no less than the second writes |
| JsonString.CountEscape | src/cJSON.c:187-218 | each escape writes no more bytes than were counted for it |
| JsonString.Transcode | src/cJSON.c:180-222 | the second loop fills the array with the unescaped bytes and a terminator |
| JsonString.WriteStep | src/cJSON.c:187-218 | one escape, with all four ways in which a `\u` writes nothing |
| JsonString.WriteUtf8 | src/cJSON.c:207-215 | the fall-through switch leaves the UTF-8 of section 3 of RFC 3629 in place, written from its last byte to its first |
| JsonString.WriteTail | src/cJSON.c:209-212 | the cases that fall through write the continuation bytes, last one first |
| JsonString.StepBack | src/cJSON.c:210 | one of them: a continuation byte one place back, and six bits less |
| JsonString.ByteForms | src/cJSON.c:210-212 | the bit operators of a continuation byte are the arithmetic used in the model |
| JsonString.MarkForms | src/cJSON.c:213 | or-ing the first byte mark is adding it |
| JsonString.CombineForm | src/cJSON.c:204 | the or-ed surrogate pair as arithmetic: bit 16 is set, not added |
| JsonString.CombineExact | src/cJSON.c:204 | a surrogate pair of section 2.1 of RFC 2781 decodes to its scalar exactly when bit 6 of the high half is clear |
| JsonString.Utf8Denotes | src/cJSON.c:207-215 | the bytes written for a character denote it under the table of section 3 of RFC 3629 |
| JsonString.UnitRead | src/cJSON.c:195-202 | four hexadecimal digits, given as characters in either case, are worth their number |
| JsonString.EscapesRead | src/cJSON.c:181-221 | plain bytes, the eight short escapes and `\u` escapes of non-zero scalars, mixed in any way, are read whole and in order |
| JsonString.SilentEscape | src/cJSON.c:197-201 | a `\u` escape of zero, of a low surrogate, or of a high one that no `\u` follows, writes nothing |
| JsonString.SilentPair | src/cJSON.c:202-203 | nor does a high surrogate with a second half that is no low one |
| JsonString.CombineFails | src/cJSON.c:204 | the surrogate pair of U+20000 is decoded to U+10000 |
| JsonString.DecodedExact | src/cJSON.c:204 | the bytes read are those the pieces stand for exactly when every pair among them has that bit clear |
| JsonString.UnicodeEscapes | src/cJSON.c:170-228 | every string literal of section 7 of RFC 8259 without an escaped zero or a lone surrogate is consumed whole, and parsed to the bytes it stands for if and only if no pair has the bit set |
| JsonString.PrintStringPtr | src/cJSON.c:231-264 | the array of the counted length plus 3 is filled exactly with the printed string and its terminator |
| JsonString.CountEscapes | src/cJSON.c:236 | the counting loop computes the length of what the writing loop will write |
| JsonString.WriteEscapes | src/cJSON.c:243-261 | the writing loop writes that and stays inside the array, including the terminator `sprintf` adds |
| JsonString.PrintStringNulFree | src/cJSON.c:231-264 | a printed string is a C string again |
| JsonString.PrintedByte | src/cJSON.c:243-260 | each byte is printed as itself, as one of seven short escapes or as `\u00` with two lower-case digits, which of them being given by its number |
| JsonString.StringPrinted | src/cJSON.c:231-264 | a printed string is a literal of such pieces and stands for the string |
| JsonString.StringRoundTrip | src/cJSON.c:170-264 | every NUL-free string, printed anywhere in a text, is parsed back and consumed whole, whatever follows |
| JsonParse.StreamCmp | src/cJSON.c:316-325 | consumes the longest agreeing prefix and reports whether the keyword was all there |
| JsonParse.ParseWord | src/cJSON.c:330-340 | never undefined; success advances and failure stays in the text |
| JsonParse.ParseValue | src/cJSON.c:328-351 | success strictly advances the cursor and failure leaves it inside the text; the mutual recursion terminates |
| JsonBuild.ParseStringAt | src/cJSON.c:170-228 | stores a fresh copy of the string in the node, or leaves the node as it was |
| JsonBuild.ParseStringNulFree | src/cJSON.c:180-222 | whatever is parsed is a C string again, `\u0000` included |
| JsonBuild.ParseWordAt | src/cJSON.c:330-340 | the three comparisons run one after the other, each from where the last one stopped, and set the kind of the node |
| JsonBuild.ParseValueAt | src/cJSON.c:328-351 | the node and its new children stand for what `ParseValue` says, the cursor stands where it says, and even after a failure all that was allocated hangs from the node, each block once |
| JsonBuild.ParseArrayAt | src/cJSON.c:372-412 | the same for an array, the empty one included |
| JsonBuild.ParseItemsAt | src/cJSON.c:386-411 | the element loop: the list it builds holds the elements in order, and is a proper list where the loop fails half-way |
| JsonBuild.ExtendItems | src/cJSON.c:400-404 | one more element: a new last sibling is linked and read into |
| JsonBuild.NewSibling | src/cJSON.c:400-402 | the list grows by one empty node at its end |
| JsonBuild.Link | src/cJSON.c:402 | the two links of it; the siblings before it and all children stay as they are |
| JsonBuild.TakeComma | src/cJSON.c:393-398 | a comma, white space and a closing bracket are taken, and the list is not touched |
| JsonBuild.CloseRow | src/cJSON.c:407-411 | the test for the closing bracket |
| JsonBuild.ItemsNext | src/cJSON.c:391-405 | one turn of the element loop is one step of the recursive function |
| JsonBuild.ItemsClosed | src/cJSON.c:391-411 | and its end, after a trailing comma as well, is where that function ends |
| JsonBuild.ParseObjectAt | src/cJSON.c:466-516 | as for arrays |
| JsonBuild.ParseMembersAt | src/cJSON.c:479-515 | as for arrays, with names |
| JsonBuild.ParseLastMember | src/cJSON.c:502-508 | name, colon and value of one member |
| JsonBuild.ParseNameAt | src/cJSON.c:502-504 | the string just parsed moves from `valuestring` to the name |
| JsonBuild.ParseStreamAt | src/cJSON.c:299-310 | returns a tree that stands for the document, owns exactly what was allocated, is fit to be deleted and to be printed, and has chains at every level; where it returns none, all that was allocated on the way has been freed |
| JsonWrite.WriteValue | src/cJSON.c:354-369 | prints from the nodes: the array returned has the computed length and holds the printed form of the value the nodes stand for, and its terminator |
| JsonWrite.WriteNumber | src/cJSON.c:150-153 | 21 bytes that hold the decimal digits |
| JsonWrite.WriteArray | src/cJSON.c:415-463 | walks the children, prints each, sums the length, allocates and composes without leaving the allocation |
| JsonWrite.ComposeArray | src/cJSON.c:452-461 | the compose loop writes bracket, elements, separators, bracket and terminator |
| JsonWrite.WriteObject | src/cJSON.c:519-596 | the same for objects, names printed separately |
| JsonWrite.WriteMembers | src/cJSON.c:536-543 | the loop over the children yields every name and value as printed, in order, and the sum of their lengths |
| JsonWrite.ComposeObject | src/cJSON.c:558-595 | brace, line break, members, indentation, brace and terminator |
| JsonWrite.ComposeMembers | src/cJSON.c:559-585 | the member loop writes the members in order |
| JsonWrite.ComposeMember | src/cJSON.c:561-581 | one line: indentation, name, colon, value, comma, line break |
| JsonWrite.ItemsFit | src/cJSON.c:430-436 | what the first loop of `print_array` adds covers what the second one writes |
| JsonWrite.MembersFit | src/cJSON.c:536-543 | what the first loop of `print_object` adds covers what the second one writes |
| JsonWrite.LengthBound | src/cJSON.c:415-596 | for every tree, depth and form, the length computed bottom-up covers every byte written and the terminator |
| JsonWrite.ValueNulFree | src/cJSON.c:354-369 | printed trees are C strings, so that the `strlen` and `strcpy` of the caller see all of them |
| JsonGrammar.TextRead | src/cJSON.c:328-351 | every JSON text, with any white space before and after every token, standing anywhere in a text, is consumed whole and parsed to its value, provided a number is followed by a byte that ends it |
| JsonGrammar.WordRead | src/cJSON.c:316-340 | the three keywords are read as what they are |
| JsonGrammar.ArrayRead | src/cJSON.c:372-412 | the array case of it, the empty array with white space inside included |
| JsonGrammar.ElementsRead | src/cJSON.c:386-411 | elements are read one by one, up to what the loop makes of what follows them |
| JsonGrammar.ObjectRead | src/cJSON.c:466-516 | the object case |
| JsonGrammar.EntriesRead | src/cJSON.c:479-515 | the same for members, with white space around names, colons and values |
| JsonGrammar.ValueExact | src/cJSON.c:204 | the value read is the value meant exactly when no surrogate pair in any string or name has bit 6 of its high half set |
| JsonGrammar.JsonRead | src/cJSON.c:328-351 | bytes that are a JSON text for a value are parsed to that value, at every position |
| JsonGrammar.DocumentRead | src/cJSON.c:299-310 | the same through `cJSON_Parse_Stream`, after any white space and whatever follows |
| JsonGrammar.TrailingComma | src/cJSON.c:391-409 | after any elements, any white space and a trailing comma, at every position, an array succeeds exactly when two closing brackets follow |
| JsonGrammar.TrailingCommaInObject | src/cJSON.c:489-513 | the same of an object |
| JsonRoundTrip.LayoutWritten | src/cJSON.c:354-596 | the printer writes exactly the text of the layout: a space after the commas of an array, a tab after colons, members on lines of their own indented by depth, and none of it in the compact form |
| JsonRoundTrip.LayoutIsSyntax | src/cJSON.c:354-596 | that is a text of the grammar |
| JsonRoundTrip.LayoutValue | src/cJSON.c:354-596 | and its value is the tree |
| JsonRoundTrip.PrintedIsJson | src/cJSON.c:354-596 | for every tree, depth and form, what is printed is a JSON text for the tree |
| JsonRoundTrip.TreeRoundTrip | src/cJSON.c:328-596 | for every printable tree, depth and form, and every text before and after it, parsing gives the tree back |
| JsonRoundTrip.PrintedRead | src/cJSON.c:299-314 | the same through `cJSON_Parse_Stream`, after any white space |
| JsonRoundTrip.FormsAgree | src/cJSON.c:313-314 | the formatted and the compact form of a tree both parse to that tree |
| JsonRoundTrip.WordStart | src/cJSON.c:316-340 | where no keyword is found, the cursor is left where it was exactly before a byte that starts none |
| JsonRoundTrip.ValueStart | src/cJSON.c:330-350 | the value is then read at the place where the comparisons stopped, or fails there if a keyword would start at it |
| JsonRoundTrip.StrayStarts | src/cJSON.c:316-340 | the bytes consumed are proper starts of the three keywords, one after the other |
| JsonRoundTrip.StrayValue | src/cJSON.c:328-351 | a value is read from another place than it was looked for exactly if a start of a keyword stands there, no keyword does, and a value that does not look like one follows |
| JsonRoundTrip.StrayExample | src/cJSON.c:316-351 | `nft[]` is read as an empty array |
| JsonEcho.PrintTree | src/cJSON.c:313-314 | whatever the nodes stand for, the C string in the array returned parses to that value and nothing follows it |
| JsonEcho.Copy | src/jsonrpc-c.c:180 | a printed tree, parsed again, is a second tree of the same value made of fresh blocks, fit to be printed in turn |
| JsonEcho.Echo | src/jsonrpc-c.c:178-180 | from a text to nodes, to a text in either form and to nodes again: the value is the same and the trees share no block |
| JsonCut.ParseWordCut | src/cJSON.c:316-340 | a keyword that is cut leaves the cursor exactly at the cut |
| JsonCut.UnescapeCut | src/cJSON.c:181-221 | a string that is cut stops at the cut, or runs past it exactly if the cut is inside an escape |
| JsonCut.ParseStringCut | src/cJSON.c:170-228 | the same of a literal with its quotes |
| JsonCut.ParseNumberCut | src/cJSON.c:100-143 | a number that is cut ends at the cut, or one byte earlier exactly if its point is the last byte |
| JsonCut.ValueClosed | src/cJSON.c:328-351 | whatever is parsed whole leaves no string open and does not end with a point, so that the scan may start anew behind it |
| JsonCut.ValueCut | src/cJSON.c:328-351 | on every prefix of every text, a value that the parser accepts ends as on the whole text or stops where the scan says, and a container that is not all there fails there |
| JsonCut.ArrayCut | src/cJSON.c:372-412 | the array case of it |
| JsonCut.ObjectCut | src/cJSON.c:466-516 | the object case of it |
| JsonCut.ItemsCut | src/cJSON.c:386-411 | the element loop |
| JsonCut.MembersCut | src/cJSON.c:479-515 | the member loop, with cuts inside names, around colons and inside values |
| JsonCut.StreamCut | src/cJSON.c:299-310 | for every text whose first document is an array or object: on every proper prefix `cJSON_Parse_Stream` runs past the end inside an escape, fails one byte early right after a point outside of strings, and fails exactly at the end otherwise; on every longer one it returns the document |
| JsonCut.FractionCut | src/cJSON.c:116 | an array that is cut right after the point of its first element fails one byte before the cut |
| JsonCut.PointExample | src/cJSON.c:116 | `[1.` fails at its third byte |
| JsonNode.GetArraySize | src/cJSON.c:599-605 | the number of siblings |
| JsonNode.Walk | src/cJSON.c:606 | the sibling at that index, the first one for a negative index and null past the end |
| JsonNode.StrCaseCmpEqual | src/cJSON.c:35-48 | a null name equals only a null key |
| JsonNode.Key | src/cJSON.c:607 | the first sibling with the name, or the number of siblings |
| JsonNode.GetObjectItem | src/cJSON.c:607 | finds that sibling |
| JsonNode.SuffixObject | src/cJSON.c:610 | two lists become one, linked both ways |
| JsonNode.AddItemToArray | src/cJSON.c:615 | appends the item and whatever siblings it comes with |
| JsonNode.AddItemToObject | src/cJSON.c:616 | appends the item under a fresh copy of the name; the name it had is freed |
| JsonNode.CreateReference | src/cJSON.c:612 | a fresh, nameless, unlinked node that shares child and string and owns only itself |
| JsonNode.AddItemReferenceToArray | src/cJSON.c:617 | appends such a node; the item stays where it is |
| JsonNode.Unlink | src/cJSON.c:625-626 | the neighbours of a node are linked to each other and the rest keeps its order |
| JsonNode.DetachItemFromArray | src/cJSON.c:620-630 | removes the indexed node from the list and returns it unlinked, or changes nothing |
| JsonNode.DetachItemFromObject | src/cJSON.c:637 | removes exactly the node `cJSON_GetObjectItem` finds |
| JsonNode.ReplaceLinks | src/cJSON.c:641-643 | puts the new node at the index, linked both ways, and unlinks the old one |
| JsonNode.ForestChain | src/cJSON.c:400-402 | a list whose nodes are linked both ways and belong to one owner each is the chain that the list operations demand |
| JsonNode.ForestChains | src/cJSON.c:400-402 | so is every list below it |
| JsonNode.Delete | src/cJSON.c:85-97 | terminates and frees each block the forest owns once and while it is live, and nothing else: not what only a reference leads to |
| JsonNode.DeleteItemFromArray | src/cJSON.c:632-635 | the list without the indexed node, whose blocks and no others are freed |
| JsonNode.DeleteItemFromObject | src/cJSON.c:638 | the same for the node of that name |
| JsonNode.ReplaceItemInArray | src/cJSON.c:641-643 | the list with the node at the index updated, the old one's blocks freed |
| JsonNode.ReplaceItemInObject | src/cJSON.c:644 | the same for the node of that name, under a fresh copy of the name |
| Procedures.Server.Register | src/jsonrpc-c.c:386-405 | appends to the table |
| Procedures.Server.Deregister | src/jsonrpc-c.c:407-440 | the shifting loop deletes the oldest entry of the name, keeps the order of the rest, and reports -1 only for an empty table |
| Procedures.RemoveFirstAt | src/jsonrpc-c.c:413-420 | deleting at the first index of the name is what `RemoveFirst` means |
| Procedures.Server.Invoke | src/jsonrpc-c.c:77-96 | invokes the last entry of the name, or answers that there is none |
| Procedures.FindItem | src/cJSON.c:607 | the node that the walk over the members finds stands for the first member of that name |
| Procedures.KeyIsItem | src/cJSON.c:607 | the first node of a name and the first member of that name are the same |
| Procedures.Server.EvalRequest | src/jsonrpc-c.c:105-134 | walks the nodes of the root three times and decides as the values of its members say |
| Procedures.GetItemConcat | src/cJSON.c:607 | the first member of a name hides the later ones |
| Procedures.EvalIgnores | src/jsonrpc-c.c:109-114 | members under other names do not matter, wherever they stand |
| Procedures.EvalFirst | src/jsonrpc-c.c:109-114 | nor do later members that repeat the three names |
| Procedures.GetItemFirst | src/cJSON.c:607 | the member found is the first one whose name agrees, letter case aside |
| Procedures.ValueIntTruncates | src/cJSON.c:137-140 | the integer of a number is the rational it denotes without its fraction |
| Procedures.Answered | src/jsonrpc-c.c:105-134 | after every run of registrations and removals: error -32600 without an id for what is no request, and otherwise error -32601 or the most recent registration of the method with the parameters, both with the id of the request, a number truncated to an integer |
| Procedures.NamedRemoveFirst | src/jsonrpc-c.c:407-440 | a removal takes the oldest entry of its name and leaves every other name alone |
| Procedures.LookupIsLast | src/jsonrpc-c.c:85-92 | the downward search finds the newest entry of the name |
| Procedures.RunNamed | src/jsonrpc-c.c:386-440 | after every run, the entries of a name are its most recent registrations, as many as registrations exceed effective removals |
| Procedures.Invocable | src/jsonrpc-c.c:77-103 | after every run, a name is invocable exactly when that excess is positive, and its most recent registration is invoked |
| Connection.Watcher.constructor | src/jsonrpc-c.c:238-241 | a new connection has an empty, zeroed buffer of 1500 bytes |
| Connection.Watcher.OnReadable | src/jsonrpc-c.c:144-213 | the buffer holds exactly the bytes the step function keeps and a zero, `pos` stays below `buffer_size - 1`, through doublings, and state and responses are those of the history of its reads |
| Connection.Watcher.Grow | src/jsonrpc-c.c:152-160 | doubling keeps the bytes and zeroes the rest |
| Connection.Watcher.Consume | src/jsonrpc-c.c:178-210 | a document is parsed, evaluated, shifted out and freed again, more input is waited for, or the connection fails |
| Connection.Watcher.Evaluate | src/jsonrpc-c.c:185-187 | the tree of an object is evaluated as the request it stands for; other documents are dropped |
| Connection.Watcher.Shift | src/jsonrpc-c.c:189-193 | `memmove`, `strlen` at the old place and `memset`, in that order, leave what `AfterShift` says |
| Connection.Watcher.MemMove | src/jsonrpc-c.c:189 | the overlapping move of the string, its terminator and one byte more |
| Connection.ShiftCases | src/jsonrpc-c.c:189-191 | the length kept, for every document and every rest: all of the rest, nothing, or the rest less as many bytes as the document had |
| Connection.ShiftExact | src/jsonrpc-c.c:189-191 | the rest is kept if and only if it is empty or at least two bytes shorter than what was consumed |
| Connection.StepOnDocument | src/jsonrpc-c.c:178-210 | one read towards a document: taken when all of it is there; otherwise waited for, or the end of the connection for one of the two bad cuts |
| Connection.LastStep | src/jsonrpc-c.c:196-210 | white space after the last document is waited on, not an error |
| Connection.StepOnTrack | src/jsonrpc-c.c:178-210 | one read of any size takes the next document exactly when all of it has arrived, and keeps the connection on its stream if and only if it is gentle |
| Connection.StepsOnTrack | src/jsonrpc-c.c:144-213 | over every run of reads, the connection is on its stream after each if and only if all of them are gentle |
| Connection.TakenPerRead | src/jsonrpc-c.c:178-195 | no run takes more documents than it has reads |
| Connection.Chunking | src/jsonrpc-c.c:144-213 | however a stream of arrays and objects is cut into gentle reads, no parse error, the requests of a prefix of its documents evaluated in order and once each, and the buffer holds exactly what follows them |
| Connection.FirstLoss | src/jsonrpc-c.c:178-210 | the first read that is not gentle: the request is evaluated and the last bytes behind it are lost, as many as were consumed or all, or the connection ends |
| Connection.RunReplies | src/jsonrpc-c.c:178-210 | over every run of reads, of whatever bytes: one response for each request that was evaluated, in order, under the table of a read of its own, and a parse error after them exactly if the connection failed |
| Connection.Replied | src/jsonrpc-c.c:144-213 | what a connection has sent back after gentle reads of a stream: exactly the evaluations of the requests among the documents taken, and nothing else |
| Connection.RepliedLoss | src/jsonrpc-c.c:178-210 | the same where the last read was not gentle, with one error -32700 behind them exactly if it made the connection fail |
| Connection.OnePerRead | src/jsonrpc-c.c:178-195 | a stream that arrives in one read is all evaluated exactly when it holds one document at most |
| PrintedStreams.PrintedStream | src/cJSON.c:313-314 | printed documents joined by white space form a stream of these documents |
| PrintedStreams.PrintedChunking | src/jsonrpc-c.c:144-213 | chunking independence for every client that prints its documents, in either form, and whose reads are gentle |
| PrintedStreams.PatientStep | src/jsonrpc-c.c:178-210 | a read with no more than white space behind the document it completes: what is left is a stream of the other documents, whatever white space is lost |
| PrintedStreams.PatientSteps | src/jsonrpc-c.c:144-213 | the same over every run of such reads |
| PrintedStreams.EveryRequest | src/jsonrpc-c.c:144-213 | when such a client has sent all its documents, every request has been evaluated, in order and once each |
| PrintedStreams.EveryReply | src/jsonrpc-c.c:144-213 | and what has been sent back is exactly the evaluations of all its requests, in order |
| PrintedStreams.CalmValue | src/cJSON.c:354-369 | printed trees with plain strings hold no backslash, leave no string open and have no point outside of strings |
| PrintedStreams.PlainRun | src/jsonrpc-c.c:178-210 | for plain documents reads may be cut anywhere: they are gentle as soon as every document leaves room for what arrives behind it |
| PrintedStreams.PlainChunking | src/jsonrpc-c.c:144-213 | chunking independence for plain documents under that one condition |
| PrintedStreams.Pipelined | src/jsonrpc-c.c:189-191 | `{"a":1} {"b":2}` in one read keeps one space and loses the second request |
| PrintedStreams.TornApart | src/jsonrpc-c.c:189-208 | `{}{"a":"x"}` and then `{"b":2}` end in a parse error with one request evaluated |
| RingBuffer.Ring.constructor | src/ringbuffer.c:326-351 | an empty buffer of the aligned size |
| RingBuffer.Ring.Status | src/ringbuffer.c:7-17 | empty and full exactly when the queue is |
| RingBuffer.Ring.DataLen | src/ringbuffer.c:296-311 | the length of the queue |
| RingBuffer.Ring.SpaceLen | src/ringbuffer.h:102 | what is left of the size |
| RingBuffer.Ring.Reset | src/ringbuffer.c:316-324 | empties the queue |
| RingBuffer.Ring.Put | src/ringbuffer.c:36-75 | appends the longest prefix that fits, also across the end of the buffer |
| RingBuffer.Ring.PutForce | src/ringbuffer.c:82-124 | the newest `buffer_size` bytes of contents and block, or nothing in the case of the double flip |
| RingBuffer.ForceExact | src/ringbuffer.c:110-121 | the result is the newest bytes if and only if the indices are on different mirrors or the clamped block fits |
| RingBuffer.EverythingLost | src/ringbuffer.c:110-121 | a state that one `put` reaches, from which the forced write of two bytes leaves an empty buffer |
| RingBuffer.Ring.Get | src/ringbuffer.c:129-168 | removes and delivers the longest prefix asked for that is there |
| RingBuffer.Ring.Peak | src/ringbuffer.c:173-201 | delivers and drops the contiguous part of the queue |
| RingBuffer.Ring.PeakTwice | src/ringbuffer.c:173-201 | two calls deliver the whole queue in order and leave it empty |
| RingBuffer.Ring.PutChar | src/ringbuffer.c:206-228 | appends the byte where there is space |
| RingBuffer.Ring.PutCharForce | src/ringbuffer.c:235-264 | appends the byte and drops the oldest one of a full queue, in every state |
| RingBuffer.Ring.GetChar | src/ringbuffer.c:269-291 | removes the oldest byte where there is one |
| RingBuffer.AppendView | src/ringbuffer.c:49-74 | where there is space, a write on either mirror and across the end appends to the queue and keeps the index invariant |
| RingBuffer.OverwriteView | src/ringbuffer.c:96-121 | where there is not, a buffer that is read as full holds the newest bytes |
| RingBuffer.DropView | src/ringbuffer.c:142-167 | moving the read index drops the oldest bytes and keeps the index invariant |
| MemoryDevice.Memory.constructor | src/class/ldal_memory.c:16-23 | opens with an empty queue of the default size |
| MemoryDevice.NarrowWraps | src/class/ldal_memory.c:39-52 | a length beyond sixteen bits loses its high bits |
| MemoryDevice.Memory.Read | src/class/ldal_memory.c:39-52 | what is delivered is what leaves the queue; the length asked for is narrowed to sixteen bits |
| MemoryDevice.Memory.Write | src/class/ldal_memory.c:54-67 | the count returned is the prefix that enters the queue |
| MemoryDevice.Memory.Serve | src/ldal.c:74-90 | over every sequence of requests, bytes delivered followed by the contents are the bytes accepted |
| MemoryDevice.InvNext | src/ldal.c:74-90 | every step of every thread keeps mutual exclusion, the truth of what the lock holder measured, and conservation |
| MemoryDevice.Conservation | src/ldal.c:74-90 | these hold in every state of every interleaving of any number of threads |
| IntrusiveList.InitListHead | inc/list.h:24-28 | an empty cycle |
| IntrusiveList.ListAddBetween | inc/list.h:31-39 | the four links of an insertion, also where both neighbours are the same node |
| IntrusiveList.ListAddTail | inc/list.h:53-56 | appends, `next` and `prev` staying inverse on one cycle |
| IntrusiveList.ListEmpty | inc/list.h:64-67 | true exactly for the empty sequence |
| IntrusiveList.ListDel | inc/list.h:76-88 | removes the node, also where it is the only one, and clears its links |
| IntrusiveList.ListForEach | inc/list.h:95-96 | visits the nodes in order, once each, and terminates |
| Registry.StrnCmpEqual | src/ldal.c:160 | the comparison asks whether the name is a prefix of the stored one |
| Registry.Find | src/ldal.c:158-166 | the first name with the prefix, or none at all |
| Registry.OrderedAppend | src/ldal.c:331-362 | a name the lookup does not answer for keeps the order: no later name is a prefix of an earlier one |
| Registry.OrderedRemove | src/ldal.c:391 | so does a removal |
| Registry.ExactLookup | src/ldal.c:151-167 | in an ordered registry the prefix search returns exactly the device whose full name is asked for, and names are unique |
| Registry.EveryRun | src/ldal.c:321-396 | both hold after every run of registrations and unregistrations |
| Registry.RegisteredIsFound | src/ldal.c:331-362 | right after its registration the name finds the new device |
| Registry.StoredName | src/ldal.c:348 | the stored name extends the name asked for, and equals it exactly when the buffer held a zero there |
| Registry.DeviceList.GetByName | src/ldal.c:151-167 | the list walk returns the device of that first name |
| Registry.DeviceList.Register | src/ldal.c:321-380 | appends and initialises the device exactly when no registered name answers and the class is known; the registry invariant is kept |
| Registry.DeviceList.Unregister | src/ldal.c:382-396 | removes a device that is not open and keeps the order of the rest; the registry invariant is kept |
| Checksum.Crc16 | src/class/ldal_analog.c:23-43 | the double loop computes the function `Crc` |
| Checksum.EightTurns | src/class/ldal_analog.c:34-40 | the inner loop |
| Checksum.CrcSteps | src/class/ldal_analog.c:30-33 | the register starts at 0xFFFF, and a further byte is combined with its high byte |
| Checksum.Shift8Bits | src/class/ldal_analog.c:34-40 | eight turns in closed form: the exclusive or of one number for each bit of the byte |
| Checksum.Shift8Linear | src/class/ldal_analog.c:34-40 | eight turns are linear under exclusive or |
| Checksum.HighInjective | src/class/ldal_analog.c:32-40 | the high byte after eight turns determines the byte before them |
| Checksum.HighBijective | src/class/ldal_analog.c:32-40 | that map is a bijection, with its inverse given |
| Checksum.SuffixHigh | src/class/ldal_analog.c:31-41 | a difference in the high byte survives every suffix, and nothing else does |
| Checksum.OneByteDetected | src/class/ldal_analog.c:23-43 | two buffers that differ in at most one byte have the same checksum if and only if they are equal |
| Checksum.TwoBytes | src/class/ldal_analog.c:23-43 | a change of two bytes goes undetected for exactly one value of the second |
| Checksum.HighDetermines | src/class/ldal_analog.c:34-42 | the checksum of a non-empty buffer is a function of its high byte |
| Checksum.Affine | src/class/ldal_analog.c:23-43 | the checksum of the exclusive or of three buffers of one length is that of their checksums |
| Checksum.Restore | src/class/ldal_analog.c:350-354 | a record is accepted exactly when its checksum is that of its data |
| Checksum.CorruptionRejected | src/class/ldal_analog.c:316-354 | a record with one corrupted byte is rejected |

## Left out

- Sockets, `libev`, `accept` and the writing of responses: a read is a chunk, a response a record in a sequence.
- The results of handlers: a handler that sets an error code of its own answers with that error; here an
  invocation is recorded with its parameters and id.
- JsonWrite.WriteValue: trees without references, whose strings and member names are there (`Sound`), as those of
  every parsed tree are; the code prints nothing for a missing string. The strings it frees on the way are local,
  and the array returned is not among the blocks that are counted.
- JsonEcho.Echo: documents whose numbers are 32-bit integers, as for `WriteNumber`.
- Procedures.Server.EvalRequest: of the parameters the record of an invocation holds the value, as
  `JsonBuild.ReadTree` reads it off the nodes, where the code passes the node itself.
- `cJSON_Parse`, which is `cJSON_Parse_Stream` without the cursor.
- JsonGrammar.TextRead: texts with an escaped zero or a lone surrogate in a string, which have no value that C strings
  and UTF-8 could hold.
- JsonString.ReadString: the string is returned as a value; `ParseStringAt` stores it in a block of its own.
- JsonNumber.ReadNumber: exact integers instead of `double`; rounding, the range of `int subscale` and the
  conversion to `valueint` outside the range of `int` are not modelled.
- JsonWrite.WriteNumber: only the `%d` branch of `print_number`; the `%.0f`, `%e` and `%f` branches depend on
  floating-point rounding.
- JsonNode.Walk: `cJSON_GetArrayItem` is this loop on its own; the array constructors of `src/cJSON.c:656-659` are
  not modelled.
- JsonNode.Delete: the forest that hangs from the argument is a ghost argument; a list that is cyclic, owns a block
  twice or is not linked both ways has none.
- Connection.Chunking: streams of arrays and objects. A number, string or keyword at the top level has no closing
  byte, so that the parser cannot know whether more of it is to come.
- Connection.Watcher.MemMove: when the buffer is full, line 189 reads one byte behind it, which the model takes to be
  zero. `pos` and `buffer_size` are unbounded.
- Registry.DeviceList.Register: lookup and insertion are separate critical sections in the code and one step
  here; file name, class, user data, mutex and the driver's `init` are left out, the class being a flag that says
  whether it could be set up. The name is shorter than its buffer, which the code does not check.
- RingBuffer.Ring.constructor: sizes that align down to zero or do not fit sixteen signed bits fail the
  assertions of `dg_ringbuffer_create` and `dg_ringbuffer_init`.
- Registry.EveryRun: name buffers are zeroed, as `calloc` leaves them; `StoredName` and `OrderedAppend` say what
  holds for others.
- MemoryDevice.Conservation: between open and close; the ring buffer appears as its queue, which `RingBuffer`
  justifies.
- Opening and closing by reference count, except as the guard of the unregistration.
- Allocation failure, allocation hooks and `malloc(0)`.
- The other drivers, the network devices, the AT client and the tools: system calls and `ioctl` plumbing.
