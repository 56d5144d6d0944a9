# Verified model of cJSON and of four small cores of the camera firmware

This project models, in Dafny, the vendored cJSON library of the basic devkit and four smaller
pieces with real state or arithmetic: the ring buffer of the crowd application, its two-slot
deep-learning handshake, the output queue of the host's message thread, and the conversion
between binary32 and binary16 numbers. `dafny verify dfyconfig.toml` checks the whole project.

## How it is built

**cJSON.** Texts are sequences of bytes; a C string is what stands in front of its NUL.
Nodes are heap objects (`Nodes`) with `next`, `prev` and `child` pointers; a ghost tree names the
nodes of an item, `Formed` says that the pointers agree with it, `ContentOf` spells out the other
fields, and `JsonOf` gives the value the tree stands for. Around this:

- `StringText`, `NumberText` and `Grammar` are a pure recursive-descent parser on the bytes left to
  read. `ParseBuffer.dfy` and `ParseWithOpts.dfy` are the parser as the code has it: one mutable
  offset, steps back, the clamp at the end of the buffer, nodes allocated and linked on the way.
  Each of its methods is proved to read what the pure parser reads.
- `Escaping` and `PrintedText` give the text of a tree in both formats. `PrintBuffer.dfy` and
  `PrintEntry.dfy` are the printer: a buffer that grows or is fixed, reservations before each piece
  of text, and `strlen` to find the position again. Each print method leaves exactly the pure text,
  and fails exactly when that text and two bytes more do not fit.
- `StringSyntax`, `NumberSyntax`, `Documents`, `MinifySyntax` and `Layout` say in their own terms what
  the texts are: string literals as tokens, numbers as signs and digits, documents as values with
  the gaps between their tokens, the pieces of a text with comments, and where the line breaks and
  tabs of a formatted text go. The parser is proved to accept exactly the documents and to read each
  as what it means; the printer to write the shortest strings, canonical digits and that layout; the
  minifier to leave exactly what the pieces of a text keep. None of these definitions is used by the
  functions they are compared with.
- `RoundTrip` proves that parsing undoes printing; `Minify` and `MinifyMeaning` cover the in-place
  minifier and what it does to documents; `NodeLists` and `ListEdits` the child lists; `Equality` and
  `Compare` the comparison.

**The smaller cores.** `Ringbuf` ties wrapping 32-bit counters to a bounded queue through ghost
histories of everything put and got. `Handshake` and `OutputQueue` (in `DlQueue.dfy`) are state
machines whose steps interleave freely; the theorems hold in every state of every run. `Fp16` and
`Fp16Rounding` state values as integers in units of 2^-149, so results are compared exactly.

## What the proofs say about the code

- The header of cJSON advises to allocate five bytes more than a text needs, because the estimate is
  "not always 100% accurate" (`cJSON.h:152`). The need is exact: the text, its NUL and one byte more
  (`PrintEntry.PrintPreallocated`), so two bytes more are enough and five certainly are.
- `parse_hex4` answers 0 for bad digits, so a `\u` escape can swallow the backslash of the next
  escape and the two passes of `parse_string` disagree from there on. The size computed by the first
  pass still covers everything the second one writes, for every input (`StringText.StepFits`,
  `ParseBuffers.ParseBuffer.DecodeInto`).
- The accepted language is wider than RFC 8259, and `Documents.ParseTextExactly` says by how much:
  whitespace is every byte up to the space, strings may hold raw control characters and `\u` escapes
  with bad digits, numbers may have leading zeros or be written `-.5` or `1.`, but not longer than 63
  bytes, and nesting ends at 1000.
- A tree nested more deeply than the parser's limit is printed all the same, and its text is then
  rejected: parsing undoes printing exactly up to that limit (`RoundTrip.ParseUndoesPrint`).
- An object with a repeated key of two values is not even equal to its own copy, because look-up
  stops at the first match. `cJSON_Compare` is equality of meanings exactly between trees whose
  repeated keys agree (`Equality.EqualMeansSame`, `Equality.RepeatedKeyNotEqual`).
- `Ringbuf_t::find` is documented as a search in the buffer. It finds every stored element, but when
  the stored elements do not reach the end of the buffer the unsigned difference of the second loop
  wraps around and free slots are reported as taken; `Ringbuf.FreeIsNotFound` says exactly when it
  does not happen.
- The assert behind the second push of the message thread always holds. But the pop in front of it
  finds nothing to drop exactly if the consumer has taken a whole queue since the first push failed,
  and the code then follows the NULL pointers of an item that was never filled in
  (`OutputQueue.DropFindsItem`, `OutputQueue.DropCanFindNothing`).

## Model

| member | source | states |
|---|---|---|
| `Bytes.CString` | xcore/basic_devkit/host/cJSON.c:801-805 | what a reader of a NUL-terminated buffer sees: the bytes up to the first NUL |
| `StringText.Hex4` | xcore/basic_devkit/host/cJSON.c:540-573 | any result but 0 comes from four hexadecimal digits; bad digits give 0 |
| `StringText.Utf16Literal` | xcore/basic_devkit/host/cJSON.c:577-640 | a literal is one or two `\u` sequences long, lies inside the input, and gives a code point up to 10FFFF |
| `StringText.PassToken` | xcore/basic_devkit/host/cJSON.c:715-729 | what a turn of the first pass does: over one token, or past the end of a string that is not closed |
| `StringText.StepFits` | xcore/basic_devkit/host/cJSON.c:735-802 | every step of the second pass keeps within the first pass's count, in step with it or not |
| `StringText.LiteralFits` | xcore/basic_devkit/host/cJSON.c:577-695 | a `\u` literal fits, also one whose bad digits swallow the next backslash |
| `StringText.DropTokens` | xcore/basic_devkit/host/cJSON.c:711-742 | wherever the second pass lands inside a run of tokens, the tokens left are bounded by the bytes passed |
| `Escaping.EscapeByteRead` | xcore/basic_devkit/host/cJSON.c:902-940 | each escape the printer chooses is read back as the byte it stands for, by both passes |
| `Escaping.StringRoundTrip` | xcore/basic_devkit/host/cJSON.c:827-946 | parsing what print_string_ptr writes gives the string back, whatever follows the literal |
| `Escaping.UnicodeRoundTrip` | xcore/basic_devkit/host/cJSON.c:540-802 | any sequence of Unicode scalar values, escaped and parsed, gives its UTF-8 encoding; an escaped zero ends the C string |
| `StringSyntax.TokensRead` | xcore/basic_devkit/host/cJSON.c:744-802 | every sequence of plain bytes, two-letter escapes, `\u` escapes and surrogate pairs between two quotes is read as what it means, up to its first NUL; a `\u` with bad digits means NUL |
| `StringSyntax.DecodeExactly` | xcore/basic_devkit/host/cJSON.c:744-802 | the second pass gives exactly the bytes that some spelling of the body means, out of step with the first pass or not, and gives up exactly if there is none |
| `StringSyntax.ParseStringExactly` | xcore/basic_devkit/host/cJSON.c:698-824 | parse_string accepts exactly the literals whose body spells something, as the C string that is |
| `StringSyntax.BadEscapeRejected` | xcore/basic_devkit/host/cJSON.c:792-797 | a backslash in front of any other byte than the nine makes the literal fail, whatever follows |
| `StringSyntax.UnpairedRejected` | xcore/basic_devkit/host/cJSON.c:593-632 | so does a low surrogate on its own, or a high one that no low one follows |
| `StringSyntax.UnclosedRejected` | xcore/basic_devkit/host/cJSON.c:718-733 | so does a missing closing quote |
| `StringSyntax.HexValueIs` | xcore/basic_devkit/host/cJSON.c:549-563 | the hexadecimal digits are those of two tables, in small letters and in capitals, and no other byte is one |
| `StringSyntax.Utf8Encodes` | xcore/basic_devkit/host/cJSON.c:644-687 | the bytes written for a code point are read back as it by the table in section 3 of RFC 3629 |
| `StringSyntax.Utf8Shortest` | xcore/basic_devkit/host/cJSON.c:644-687 | nothing shorter, and nothing else of that length, stands for the code point |
| `StringSyntax.PrintedTokens` | xcore/basic_devkit/host/cJSON.c:827-946 | what print_string_ptr writes is a literal the standard allows, for exactly that string |
| `StringSyntax.PrintedShortest` | xcore/basic_devkit/host/cJSON.c:849-940 | every other such literal for the string is longer, or as long with some capital digit |
| `NumberText.WindowGrows` | xcore/basic_devkit/host/cJSON.c:282-311 | how far the bytes copied for strtod reach |
| `NumberText.StrtodInteger` | xcore/basic_devkit/host/cJSON.c:314-318 | reading the digits of an integer gives the integer and uses them all |
| `NumberText.NumberRoundTrip` | xcore/basic_devkit/host/cJSON.c:266-340 | a printed integer is read back, if no number byte follows, and fits the printer's local buffer |
| `NumberSyntax.StrtodReads` | xcore/basic_devkit/host/cJSON.c:314-318 | a decimal, with any sign, point, fraction and exponent, is read whole as the number its digits stand for |
| `NumberSyntax.StrtodDecimal` | xcore/basic_devkit/host/cJSON.c:314-318 | whatever is read is such a decimal, with that value |
| `NumberSyntax.StrtodLongest` | xcore/basic_devkit/host/cJSON.c:314-318 | no longer decimal stands in front of the text |
| `NumberSyntax.ParseNumberReads` | xcore/basic_devkit/host/cJSON.c:266-340 | parse_number reads the longest decimal of at most 63 bytes, and leaves the text behind it |
| `NumberSyntax.ParseNumberFails` | xcore/basic_devkit/host/cJSON.c:314-318 | it fails exactly if no decimal stands in front of the text |
| `NumberSyntax.IntTextIs` | xcore/basic_devkit/host/cJSON.c:476-516 | an integer is printed with a minus sign if it is negative, and its digits without a leading zero |
| `PrintedText.RenderNulFree` | xcore/basic_devkit/host/cJSON.c:1267-1338 | no printed text contains a NUL, so strlen finds the one behind it |
| `RoundTrip.ParseUndoesPrint` | xcore/basic_devkit/host/cJSON.c:1000-1077 | the text of a printable tree, in either format, is accepted and gives the tree back, exactly if it nests at most 1000 deep |
| `RoundTrip.ValueRoundTrip` | xcore/basic_devkit/host/cJSON.c:1212-1338 | the same for every value at every depth and indentation, in front of any text that does not go on with a number byte |
| `RoundTrip.RenderPut` | xcore/basic_devkit/host/cJSON.c:1267-1717 | the printed text of a value, in either format, is the text of a document with the printer's gaps |
| `RoundTrip.DocValid` | xcore/basic_devkit/host/cJSON.c:1267-1717 | that document has only whitespace in its gaps, and means the tree |
| `Layout.TextLaid` | xcore/basic_devkit/host/cJSON.c:1435-1717 | scanning the text of a value, compact or formatted, and placing line breaks, tabs and spaces by the brackets around gives its formatted text, at every depth |
| `Layout.FormattedLayout` | xcore/basic_devkit/host/cJSON.c:1606-1717 | so what cJSON_Print leaves is the layout of what cJSON_PrintUnformatted leaves |
| `Documents.DocRead` | xcore/basic_devkit/host/cJSON.c:1212-1603 | every document, with any whitespace in its gaps, is read as what it means, in front of any text that does not go on with a number byte, exactly if it nests within the limit |
| `Documents.DocIn` | xcore/basic_devkit/host/cJSON.c:1212-1603 | whatever value is read is such a document, with that meaning |
| `Documents.DocAccepted` | xcore/basic_devkit/host/cJSON.c:1000-1077 | a document with gaps around it, and perhaps a byte order mark, is accepted with require_null_terminated and gives what it means, unless it nests too deep |
| `Documents.ParseTextExactly` | xcore/basic_devkit/host/cJSON.c:1000-1077 | the texts accepted with require_null_terminated are exactly those, each with that value |
| `Documents.ParseTextPrefix` | xcore/basic_devkit/host/cJSON.c:1000-1077 | without it, an accepted text starts with a document, and the rest is what follows |
| `Documents.MarkIgnored` | xcore/basic_devkit/host/cJSON.c:984-997 | a text behind one byte order mark is read like the text alone |
| `Grammar.ParsedTextBounded` | xcore/basic_devkit/host/cJSON.c:1346-1350 | no text makes the parser build a tree nested more deeply than CJSON_NESTING_LIMIT; all its strings are C strings |
| `Nodes.Node.constructor` | xcore/basic_devkit/host/cJSON.c:202-211 | a new item has all fields zero |
| `Nodes.TypedIsSound` | xcore/basic_devkit/host/cJSON.c:1276-1337 | a tree with all types, strings and keys, such as every parsed one, has only nodes print accepts |
| `Nodes.StepAlong` | xcore/basic_devkit/host/cJSON.c:1458-1482 | following next in a well-formed list visits the children in order and comes to an end |
| `NodeLists.SuffixObject` | xcore/basic_devkit/host/cJSON.c:1816-1820 | linking a tree behind a well-formed list gives a well-formed list with the same contents and one more |
| `NodeLists.AttachNew` | xcore/basic_devkit/host/cJSON.c:1378-1397 | the new item of a list is fresh and linked behind the list, whose contents stay |
| `NodeLists.Duplicate` | xcore/basic_devkit/host/cJSON.c:2550-2627 | a recursive copy is a well-formed tree of fresh nodes with the contents of the original, which is not changed; a flat copy has no children |
| `NodeLists.DuplicateKids` | xcore/basic_devkit/host/cJSON.c:2593-2616 | the copied child list is well formed, fresh, and has the same contents |
| `NodeLists.DuplicateKid` | xcore/basic_devkit/host/cJSON.c:2597-2614 | one turn of that loop |
| `ParseBuffers.ParseBuffer.SkipWhitespace` | xcore/basic_devkit/host/cJSON.c:963-981 | the loop and the clamp at the end skip exactly the bytes up to 32, the NUL at the end included |
| `ParseBuffers.ParseBuffer.CopyNumber` | xcore/basic_devkit/host/cJSON.c:282-312 | the local array gets exactly the number bytes in front, at most 63 |
| `ParseBuffers.ParseBuffer.ParseNumber` | xcore/basic_devkit/host/cJSON.c:266-340 | the item and the offset are what the pure reader gives |
| `ParseBuffers.ParseBuffer.ParseHex4` | xcore/basic_devkit/host/cJSON.c:540-573 | the loop computes the number the digits spell, or 0 |
| `ParseBuffers.ParseBuffer.Utf16LiteralToUtf8` | xcore/basic_devkit/host/cJSON.c:577-695 | the output grows by the UTF-8 encoding of the literal's code point, or the literal is bad |
| `ParseBuffers.ParseBuffer.EncodeGroups` | xcore/basic_devkit/host/cJSON.c:672-687 | the loop that writes the bytes last to first gives the encoding |
| `ParseBuffers.ParseBuffer.FindStringEnd` | xcore/basic_devkit/host/cJSON.c:711-733 | the first pass finds the closing quote and counts the bytes that only introduce an escape |
| `ParseBuffers.ParseBuffer.DecodeOne` | xcore/basic_devkit/host/cJSON.c:748-798 | one turn of the second pass writes what the pure step says and nothing else |
| `ParseBuffers.ParseBuffer.DecodeInto` | xcore/basic_devkit/host/cJSON.c:744-802 | one byte of room for each token of the first pass is enough for the whole second pass, for every body |
| `ParseBuffers.ParseBuffer.DecodeBody` | xcore/basic_devkit/host/cJSON.c:735-802 | the allocation covers the output and its NUL |
| `ParseBuffers.ParseBuffer.ParseString` | xcore/basic_devkit/host/cJSON.c:698-824 | accepts the literals of the pure parser, with the same string and end position |
| `ParseBuffers.ParseBuffer.LookingAt` | xcore/basic_devkit/host/cJSON.c:1220-1240 | can_read and strncmp compare exactly the bytes left |
| `ParseBuffers.ParseBuffer.ParseValue` | xcore/basic_devkit/host/cJSON.c:1212-1264 | accepts what the pure parser accepts, with the same value and end; the nodes below are fresh and well linked, the depth is restored |
| `ParseBuffers.ParseBuffer.ParseArray` | xcore/basic_devkit/host/cJSON.c:1341-1432 | the same for arrays |
| `ParseBuffers.ParseBuffer.ParseElements` | xcore/basic_devkit/host/cJSON.c:1375-1408 | the loop over the elements builds the list of the items the pure parser reads |
| `ParseBuffers.ParseBuffer.ParseObject` | xcore/basic_devkit/host/cJSON.c:1497-1603 | the same for objects |
| `ParseBuffers.ParseBuffer.ParseMembers` | xcore/basic_devkit/host/cJSON.c:1529-1580 | the loop over the members builds the list of the members the pure parser reads |
| `ParseBuffers.ParseBuffer.ParseKey` | xcore/basic_devkit/host/cJSON.c:1553-1569 | the key is parsed as a value and moved to the name; a colon must follow |
| `ParseBuffers.ParseBuffer.EnterList` | xcore/basic_devkit/host/cJSON.c:1350-1374 | an empty list is closed at once, otherwise the offset steps back by one |
| `ParseBuffers.ParseBuffer.Close` | xcore/basic_devkit/host/cJSON.c:1415-1423 | the item takes over the list and becomes a well-formed tree |
| `ParseEntry.SkipUtf8Bom` | xcore/basic_devkit/host/cJSON.c:984-997 | the byte order mark is skipped only if something follows it |
| `ParseEntry.ParseWithOpts` | xcore/basic_devkit/host/cJSON.c:1000-1077 | the result is a fresh, well-formed tree for the value the pure parser reads, with its end; or NULL with a position inside the text |
| `ListText.SeparatedFront` | xcore/basic_devkit/host/cJSON.c:1458-1482 | printing elements one by one, each with a separator, adds up to the text of the list |
| `ListText.LinesFront` | xcore/basic_devkit/host/cJSON.c:1633-1697 | printing members one by one, each with its line end, adds up to the text of the list |
| `ListText.ElementStep` | xcore/basic_devkit/host/cJSON.c:1458-1482 | the text grows by one element and never beyond the text of the array |
| `ListText.EntryStep` | xcore/basic_devkit/host/cJSON.c:1633-1697 | the text grows by one member and never beyond the text of the members |
| `PrintBuffers.CountEscapes` | xcore/basic_devkit/host/cJSON.c:854-878 | string length plus count is the length of the escaped text |
| `PrintBuffers.PrintBuffer.Ensure` | xcore/basic_devkit/host/cJSON.c:373-456 | succeeds exactly if the bytes and one more fit what the buffer can become; what was written stays |
| `PrintBuffers.PrintBuffer.UpdateOffset` | xcore/basic_devkit/host/cJSON.c:460-471 | strlen finds the NUL behind the printed text, not an earlier one |
| `PrintBuffers.PrintBuffer.WriteEscaped` | xcore/basic_devkit/host/cJSON.c:897-941 | the copying loop writes exactly the escaped text |
| `PrintBuffers.PrintBuffer.PrintString` | xcore/basic_devkit/host/cJSON.c:827-946 | leaves exactly the literal of the string, NULL like the empty one; fails exactly if it and two bytes do not fit |
| `PrintBuffers.PrintBuffer.PrintNumber` | xcore/basic_devkit/host/cJSON.c:474-537 | leaves exactly the digits of the integer, or fails exactly if they and two bytes do not fit |
| `PrintBuffers.PrintBuffer.PrintValue` | xcore/basic_devkit/host/cJSON.c:1267-1338 | leaves exactly the text of the tree behind what was there and restores the depth; fails exactly if a node it reaches has no type or the text and two bytes do not fit |
| `PrintBuffers.PrintBuffer.PrintArray` | xcore/basic_devkit/host/cJSON.c:1435-1494 | the same for arrays |
| `PrintBuffers.PrintBuffer.PrintElements` | xcore/basic_devkit/host/cJSON.c:1458-1482 | the loop leaves the text of all elements and does not fail if it fits |
| `PrintBuffers.PrintBuffer.PrintElement` | xcore/basic_devkit/host/cJSON.c:1460-1480 | an element and, if another one follows, the separator |
| `PrintBuffers.PrintBuffer.PrintObject` | xcore/basic_devkit/host/cJSON.c:1606-1717 | the same for objects |
| `PrintBuffers.PrintBuffer.PrintMembers` | xcore/basic_devkit/host/cJSON.c:1633-1697 | the loop leaves the text of all members and does not fail if it fits |
| `PrintBuffers.PrintBuffer.PrintMember` | xcore/basic_devkit/host/cJSON.c:1635-1694 | a member with tabs, key, colon, value and line end |
| `PrintEntry.PrintPreallocated` | xcore/basic_devkit/host/cJSON.c:1192-1209 | true exactly if all nodes have a type and the buffer has room for the text and two more bytes; then it holds the text and a NUL |
| `PrintEntry.PrintBuffered` | xcore/basic_devkit/host/cJSON.c:1162-1190 | the same text for every starting size, whenever all nodes have a type and the text and two bytes stay within INT_MAX |
| `PrintEntry.Print` | xcore/basic_devkit/host/cJSON.c:1087-1149 | a new array that is exactly the text and its NUL |
| `Minify.SkipLine` | xcore/basic_devkit/host/cJSON.c:2657-2664 | a line comment goes up to its newline, which stays |
| `Minify.SkipComment` | xcore/basic_devkit/host/cJSON.c:2665-2673 | a block comment goes up to the first star and slash, searched from its own first slash |
| `Minify.CopyString` | xcore/basic_devkit/host/cJSON.c:2674-2687 | a string literal is copied unchanged up to its closing quote, over bytes already read |
| `Minify.Turn` | xcore/basic_devkit/host/cJSON.c:2638-2693 | the write index never passes the read index, and bytes behind it are untouched |
| `Minify.Minify` | xcore/basic_devkit/host/cJSON.c:2629-2697 | the buffer holds the minified text as a C string; everything behind it is as before |
| `Minify.MinifiedNulFree` | xcore/basic_devkit/host/cJSON.c:2629-2697 | a minified C string has no NUL inside |
| `MinifySyntax.PieceMinified` | xcore/basic_devkit/host/cJSON.c:2638-2693 | spaces, line comments and block comments go; literals and all other bytes stay, whatever follows |
| `MinifySyntax.LineMinified` | xcore/basic_devkit/host/cJSON.c:2657-2664 | a line comment goes up to the end of its line, or of the text |
| `MinifySyntax.BlockMinified` | xcore/basic_devkit/host/cJSON.c:2665-2673 | a block comment goes up to the first star and slash behind its first slash |
| `MinifySyntax.MinifiedExactly` | xcore/basic_devkit/host/cJSON.c:2629-2697 | the result is exactly what the pieces of the text keep; a text without pieces has an unclosed string or comment |
| `MinifyMeaning.StringMinified` | xcore/basic_devkit/host/cJSON.c:2674-2687 | a literal in front of any text stays as it is |
| `MinifyMeaning.NumberMinified` | xcore/basic_devkit/host/cJSON.c:2688-2692 | so does a number |
| `MinifyMeaning.DocMinified` | xcore/basic_devkit/host/cJSON.c:2629-2697 | minifying a document, with comments in its gaps or without, leaves the same document without the spaces and comments |
| `MinifyMeaning.StripMeansSame` | xcore/basic_devkit/host/cJSON.c:2629-2697 | which is a document the parser knows, and means the same |
| `MinifyMeaning.CommentsVanish` | xcore/basic_devkit/host/cJSON.c:2657-2673 | a document with comments between its tokens is accepted once it is minified, and read as what it means |
| `MinifyMeaning.MinifyKeepsMeaning` | xcore/basic_devkit/host/cJSON.c:2629-2697 | every text accepted with require_null_terminated has all its strings closed, and its minified form gives the same tree |
| `MinifyMeaning.ValueBecomes` | xcore/basic_devkit/host/cJSON.c:1435-1717 | minifying the printed text of a value, in either format, gives its unformatted text, whatever follows |
| `MinifyMeaning.MinifyUnformats` | xcore/basic_devkit/host/cJSON.c:2629-2697 | minifying a formatted text gives the unformatted text byte for byte, and an unformatted text stays as it is |
| `Equality.EqualMeansSame` | xcore/basic_devkit/host/cJSON.c:2799-2922 | the relation holds exactly between trees whose repeated keys agree and that mean the same, objects taken as unordered maps of folded keys |
| `Equality.ObjectsEqualMeansSame` | xcore/basic_devkit/host/cJSON.c:2881-2917 | the two loops over the members together decide equality of those maps |
| `Equality.EqualSymmetric` | xcore/basic_devkit/host/cJSON.c:2799-2922 | the relation is symmetric |
| `Equality.EqualTransitive` | xcore/basic_devkit/host/cJSON.c:2799-2922 | the relation is transitive |
| `Equality.EqualToCopy` | xcore/basic_devkit/host/cJSON.c:2799-2922 | a tree equals a copy exactly if its repeated keys agree |
| `Equality.DistinctKeysCompare` | xcore/basic_devkit/host/cJSON.c:2799-2922 | with distinct keys, equal exactly if the meanings are the same |
| `Equality.CopyEqualsOriginal` | xcore/basic_devkit/host/cJSON.c:2550-2627 | with distinct keys, a deep copy compares equal to its original |
| `Equality.RepeatedKeyNotEqual` | xcore/basic_devkit/host/cJSON.c:1772-1798 | the counterexample: a repeated key with two values |
| `Equality.KeysMatch` | xcore/basic_devkit/host/cJSON.c:97-118 | keys match if they are the same bytes, or without case_sensitive the same up to capital and small letters of the alphabet |
| `Compare.CaseInsensitiveStrcmp` | xcore/basic_devkit/host/cJSON.c:97-118 | 0 exactly for strings that are the same in lower case |
| `Compare.GetObjectItem` | xcore/basic_devkit/host/cJSON.c:1772-1798 | the first member whose key matches, NULL if there is none |
| `Compare.Compare` | xcore/basic_devkit/host/cJSON.c:2799-2922 | true exactly for one and the same node with a type, or for two trees in the relation whose nodes all have a type, their strings and their keys |
| `Compare.CompareItems` | xcore/basic_devkit/host/cJSON.c:2859-2878 | the loop over two arrays |
| `Compare.CompareMember` | xcore/basic_devkit/host/cJSON.c:1772-1798 | a member is looked up by its key and compared with what is found first |
| `Compare.CompareMembers` | xcore/basic_devkit/host/cJSON.c:2885-2914 | the loop over the members of one object |
| `ListEdits.GetArrayItem` | xcore/basic_devkit/host/cJSON.c:1743-1760 | the child at the index, NULL behind the last one |
| `ListEdits.AddItemToArray` | xcore/basic_devkit/host/cJSON.c:1844-1871 | appends to the sequence of children |
| `ListEdits.AddItemToObject` | xcore/basic_devkit/host/cJSON.c:1895-1930 | names the item and appends it |
| `ListEdits.DetachItemViaPointer` | xcore/basic_devkit/host/cJSON.c:2071-2099 | removes the child and leaves it without links |
| `ListEdits.DetachItemFromArray` | xcore/basic_devkit/host/cJSON.c:2101-2109 | removes the child at the index; nothing changes if there is none |
| `ListEdits.InsertItemInArray` | xcore/basic_devkit/host/cJSON.c:2141-2168 | inserts in front of the child at the index, or appends |
| `ListEdits.ReplaceItemViaPointer` | xcore/basic_devkit/host/cJSON.c:2170-2203 | updates the sequence at the child's place and leaves the old item without links |
| `ListEdits.ReplaceItemInArray` | xcore/basic_devkit/host/cJSON.c:2205-2213 | updates the sequence at the index; nothing changes if there is no such child |
| `ListEdits.DetachUndoesInsert` | xcore/basic_devkit/host/cJSON.c:2071-2168 | an inserted item is found at its index or at the end, and detaching it gives the list back; and the other way round |
| `ListEdits.ListShape` | xcore/basic_devkit/host/cJSON.c:1385-1397 | the lists the parser and the copier build are exactly the linked sequences the edits work on |
| `ListEdits.TreeShape` | xcore/basic_devkit/host/cJSON.c:1415-1423 | a parent is a well-formed tree exactly if its children are linked in the order of the sequence |
| `ListEdits.ApartKept` | xcore/basic_devkit/host/cJSON.c:2071-2203 | edits that change links only keep the trees of all children well formed, apart and with the same contents |
| `Ringbuf.MaskIsRemainder` | xcore/crowd_app/shared/ringbuf.hpp:33-34 | masking a counter with a power of two less one is the remainder |
| `Ringbuf.WrapSlot` | xcore/crowd_app/shared/ringbuf.hpp:43 | the slot does not notice that the counter wraps around |
| `Ringbuf.Counters` | xcore/crowd_app/shared/ringbuf.hpp:30 | the unsigned differences are the stored and the free elements |
| `Ringbuf.StoredMore` | xcore/crowd_app/shared/ringbuf.hpp:32-43 | new elements go to free slots: nothing stored is overwritten |
| `Ringbuf.Ringbuf.constructor` | xcore/crowd_app/shared/ringbuf.hpp:8-11 | a new buffer is an empty queue |
| `Ringbuf.Ringbuf.Reset` | xcore/crowd_app/shared/ringbuf.hpp:20-24 | empties the queue and starts new histories |
| `Ringbuf.Ringbuf.Put` | xcore/crowd_app/shared/ringbuf.hpp:26-49 | appends the elements that fit; everything got stays a prefix of everything put |
| `Ringbuf.Ringbuf.Get` | xcore/crowd_app/shared/ringbuf.hpp:51-72 | delivers and removes the oldest elements, and leaves the rest of the target alone |
| `Ringbuf.Ringbuf.GetObjNumber` | xcore/crowd_app/shared/ringbuf.hpp:74-77 | the length of the queue |
| `Ringbuf.Ringbuf.GetFreeObjNumber` | xcore/crowd_app/shared/ringbuf.hpp:80-83 | stored and free elements always add up to the size |
| `Ringbuf.Ringbuf.GetReadAddr` | xcore/crowd_app/shared/ringbuf.hpp:86-93 | the slot of the oldest element, NULL exactly if the queue is empty |
| `Ringbuf.Ringbuf.Find` | xcore/crowd_app/shared/ringbuf.hpp:97-118 | the answer of the two loops for every slot, in front of the wrap point and behind it |
| `Ringbuf.Ringbuf.StoredIsFound` | xcore/crowd_app/shared/ringbuf.hpp:97-118 | the k-th stored element lies in the k-th slot behind the read position, and is found at k |
| `Ringbuf.FreeIsNotFound` | xcore/crowd_app/shared/ringbuf.hpp:110-117 | the exact condition under which every free slot is answered with 0 |
| `Handshake.StepKeepsInv` | xcore/crowd_app/leon_rt/deep.cpp:233-254 | every step of dispatcher and workers keeps the invariant |
| `Handshake.RunKeepsInv` | xcore/crowd_app/leon/deep.cpp:135-246 | so every state of every interleaving satisfies it |
| `Handshake.DispatchFindsEmpty` | xcore/crowd_app/leon_rt/deep.cpp:235-242 | job k goes to slot k mod 2, and only when that flag is EMPTY |
| `Handshake.DispatchAlone` | xcore/crowd_app/leon_rt/deep.cpp:233-246 | one EMPTY slot is enough: the dispatcher gets a job through on its own and leaves the other slot alone, whatever its worker is doing |
| `Handshake.JobsAccounted` | xcore/crowd_app/leon/deep.cpp:229-230 | dispatches to a slot are its completions plus one if its flag is DETECT; at most two jobs are outstanding |
| `Handshake.ReaderSees` | xcore/crowd_app/leon_rt/deep.cpp:155-160 | behind dispatch n the selected buffer holds the result of job n-2 or n, never n-1 |
| `Handshake.NoErrorPrinted` | xcore/crowd_app/leon_rt/deep.cpp:248-254 | a slot is never selected twice in a row |
| `Handshake.NeverStuck` | xcore/crowd_app/leon_rt/deep.cpp:238-240 | some actor can always make a step that changes something |
| `Handshake.WaitIsBounded` | xcore/crowd_app/leon/deep.cpp:247-328 | while the dispatcher waits, at most three steps of the slot's worker clear the flag, and no step undoes its progress |
| `DlQueues.DlQueue.constructor` | xcore/basic_devkit/host/dl_queue.h:22-32 | an empty queue; a maximum of 0 becomes 8 |
| `DlQueues.DlQueue.Push` | xcore/basic_devkit/host/dl_queue.h:37-45 | appends, or refuses exactly if the queue is full |
| `DlQueues.DlQueue.Pop` | xcore/basic_devkit/host/dl_queue.h:47-58 | removes and returns the oldest item, or refuses exactly if the queue is empty |
| `OutputQueue.StepKeepsInv` | xcore/basic_devkit/host/connector_message_thread.cpp:262-281 | every step of producer and consumer keeps the invariant |
| `OutputQueue.QueueSafe` | xcore/basic_devkit/host/connector_message_thread.cpp:262-281 | in every interleaving no frame is lost: items removed, in order, then the queue, then the item in hand are all the frames taken up; each removed item delivered or dropped once; the maximum kept; the assert holds |
| `OutputQueue.FrameIsQueued` | xcore/basic_devkit/host/connector_message_thread.cpp:262-281 | a frame taken up is at the back of the queue after at most three more steps of the producer, unless the drop finds nothing |
| `OutputQueue.DropsWhenFull` | xcore/basic_devkit/host/connector_message_thread.cpp:262-266 | a drop happens exactly behind a push that found the queue full |
| `OutputQueue.DropFindsItem` | xcore/basic_devkit/host/connector_message_thread.cpp:264-280 | the drop finds an item exactly if the consumer has not taken a whole queue in between |
| `OutputQueue.DropCanFindNothing` | xcore/basic_devkit/host/connector_message_thread.cpp:264-280 | a run, for every maximum, in which it finds none |
| `Fp16.RoundedIsCorrect` | xcore/basic_devkit/host/fp16_convert.c:73-102 | the rule on round, sticky and lowest bit rounds correctly in all modes, for every significand and every even divisor |
| `Fp16.RoundedUniquely` | xcore/basic_devkit/host/fp16_convert.c:73-102 | no other result is correctly rounded |
| `Fp16.RoundSignificand` | xcore/basic_devkit/host/fp16_convert.c:73-106 | the steps on the significand compute that rule with a shift by 13, and the inexact flag |
| `Fp16.Pack` | xcore/basic_devkit/host/fp16_convert.c:107-133 | carry, bias and overflow result |
| `Fp16.F32ToF16` | xcore/basic_devkit/host/fp16_convert.c:29-140 | the whole conversion as a function of the pattern and the mode, and when the flags are set |
| `Fp16Rounding.NarrowIsCorrect` | xcore/basic_devkit/host/fp16_convert.c:72-133 | from magnitude 2^-14 on, in every mode: the overflow result exactly beyond the thresholds, otherwise the best finite binary16 number, ties to even |
| `Fp16Rounding.OverflowedExactly` | xcore/basic_devkit/host/fp16_convert.c:107-128 | the exponent test is the test against the thresholds of the modes |
| `Fp16Rounding.NarrowFlushes` | xcore/basic_devkit/host/fp16_convert.c:134-138 | smaller numbers become zero of their sign |
| `Fp16Rounding.NarrowMonotone` | xcore/basic_devkit/host/fp16_convert.c:63-138 | the conversion is monotone over all pairs of finite numbers, in every mode |
| `Fp16Rounding.RankIsOrder` | xcore/basic_devkit/host/fp16_convert.c:130-132 | the order used there is the order of the values |
| `Fp16Rounding.NarrowWiden` | xcore/basic_devkit/host/fp16_convert.c:180-235 | narrowing undoes widening on normal numbers, zeros and infinities, and widening keeps the value |
| `Fp16Rounding.InexactExactly` | xcore/basic_devkit/host/fp16_convert.c:103-106 | the bits that raise the inexact flag are lost exactly if the value changes |
| `Fp16Rounding.WidenFlushes` | xcore/basic_devkit/host/fp16_convert.c:214-225 | subnormal halves widen to zero of their sign |
| `Fp16Rounding.SpecialsWidened` | xcore/basic_devkit/host/fp16_convert.c:190-213 | infinities widen to infinities and NaNs to quiet NaNs, of their sign, and nothing else does |
| `Fp16Rounding.SpecialsNarrowed` | xcore/basic_devkit/host/fp16_convert.c:48-59 | infinities narrow to infinities of their sign, and NaNs to a quiet NaN whose sign is ignored |

## Left out

- PrintBuffers.PrintBuffer.PrintValue: prints numbers only if `%1.15g` writes them as plain integers; other numbers and Raw items are not modelled.
- NumberText.NumberRoundTrip: covers integers of magnitude below 10^15; fractions, exponents, NaN and infinities as printed text depend on sprintf and are not modelled. Reading is exact: the rounding of strtod to a double and `valueint` are not modelled.
- RoundTrip.ParseUndoesPrint: is stated for the same numbers.
- ParseEntry.ParseWithOpts: says of the position of an error only that it lies inside the text.
- Compare.Compare: compares a tree with itself or with a tree that shares no node with it; two overlapping trees, in which the pointer shortcut can apply further down, are not modelled, and neither is a NULL key given to strcmp.
- Minify.Minify: requires that the last string and the last block comment are closed; otherwise the code reads past the NUL.
- ListEdits.ReplaceItemViaPointer: leaves the old item unlinked where the code deletes it.
- Ringbuf.Ringbuf.Put: the variants of put and get without a buffer, which only move the counters, are not modelled; `is_memory_overlap` neither.
- Ringbuf.Ringbuf.Find: is asked about slots of the buffer; other addresses are not modelled.
- Fp16.F32ToF16: the invalid flag for NaNs is not modelled; subnormal halves are flushed to zero, as in the MOVIDIUS_FP32 build.
- Failing allocations, allocator hooks, `cJSON_Delete`, reference and constant-string flags, item creation helpers and the error pointer of cJSON.
- Sizes are natural numbers: overflow of `size_t` in the printer's and parser's lengths is not modelled, INT_MAX and the unsigned 32-bit counters are.
- Branches of the parser for offsets outside the content, which cannot be reached from its entry points.
- The handshake in RECORD and LIVE mode and in TESTIMAGE builds, and everything the workers compute; copying a result and reading it are single steps.
- USB, sockets, files, image processing, tensor execution, tracking and configuration: input and output, data, or calls into code that is not part of this model.
