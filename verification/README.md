# A verified model of the cJSON port

This project models the JSON library in Dafny and proves what its parts promise each other: the parser and the
printer, JSON Pointer (RFC 6901), JSON Patch (RFC 6902) and JSON Merge Patch (RFC 7396) in both directions, the merge
sort and the surgery on linked child lists, minifying, comparing and duplicating.

Two views of a tree are used. `Json.Json` is a tree as a value: null, booleans, 32-bit integers, NUL-free strings,
arrays, and objects as ordered lists of keyed members in which keys may repeat. `Nodes.Node` is a node on the heap with
`next`, `prev` and `child` links. The algorithms on trees are functions on values, next to methods in the source's own
imperative form (buffers with cursors, growing lists, walks over siblings, a document edited in place) that are proved
to compute those functions. The list code, the sort, parsing, deleting and duplicating are proved on the heap. Where
member order does not matter, `Canon.Norm` forgets it by turning objects into maps, and `Canon.Same` is equality up to
that.

How the files build on each other:

- `Bytes`, `Unicode`, `Json` (with the printed text of a tree): the common ground.
- `Parse`, `ParseBuffer`, `PrintBuffer`, `RoundTrip`, `NestingLimit`: parser and printer, and that they are inverse.
- `Grammar`, `GrammarLiterals`, `GrammarNumbers`, `GrammarParse`: which bytes are a text of a tree, said without the
  parser, and that exactly those are read. `Layout`: how printed text is laid out, read off its bytes.
- `MergeSort`, `Nodes`, `SortList`, `Ownership`, `DuplicateTree`, `ParseTree`: sorting, and everything on the heap; the
  parser once more, now building nodes with an allocator that may refuse.
- `Canon`, `Compare`, `CompareLoosely`, `CompareWalk`: trees up to member order, the two equality tests with either case
  flag, and how the sorting one of them leaves its arguments.
- `Pointer`, `Paths`, `DecodeInPlace`, `DecodeRank`: pointers: finding, following, encoding, decoding, and what decoding
  in place takes a key for.
- `Patch`, `PatchGenerate`, `PatchEngine`, `PatchUndo`, `CanonPath`, `PatchSteps`, `PatchOperations`, `PatchSpares`,
  `PatchEdits`, `PatchRoundTrip`, `PatchLimits`: JSON Patch.
- `PatchMeaning`, `PatchTests`, `PatchMeets`, `PatchStatus`: what a patch means on trees up to member order, said without
  the code's functions, that applying does it with either case flag, and when which status is given.
- `Merge`, `MergeOrder`, `MergeGenerate`, `MergeRoundTrip`, `MergeMeeting`: JSON Merge Patch.
- `Minify`, `MinifyLaws`, `MinifyText`: minifying.

The main results:

- Applying a generated patch to any copy of the first tree gives status 0 and the second, up to member order, if and
  only if the in-place pointer decoder leaves alone every key that a patch ends in, that is every key that only one
  object has or whose value is replaced (`PatchRoundTrip.PatchRoundTrip`). Set aside are only pairs of objects with keys that
  agree ignoring case (`PatchLimits.CaseCollisionFails` shows what happens there), values too deep to be duplicated, and
  arrays longer than a `usize` counts. The direction from the result
  to the keys rests on an order on keys: what the decoder takes a changed key for always ranks higher
  (`DecodeRank.RankGrows`), so the lowest changed key is not hit by any patch (`PatchEdits.MissesOne`,
  `PatchSpares.ListSpares`).
- Merging a generated merge patch gives the goal if and only if a merge patch can express the difference
  (`MergeRoundTrip.MergeRoundTrip`), where the order of keys ignoring case is their byte order in every pair of objects
  that is walked with the case flag off. Whatever the order, the keys after merging are exactly those of the goal but for
  the ones that the walk meets in the goal's sorted list first (`MergeMeeting.KeysAfterMerge`). `merge_patch` is the
  function of RFC 7396 (`Merge.MergeMeetsRfc7396`) and is idempotent, member order included (`MergeOrder.MergeTwice`).
- Minifying the formatted text of a tree gives its unformatted text if and only if no key and no string ends in a
  backslash, the last leaf aside where only closing array brackets follow it (`MinifyText.MinifyUndoesFormatting`).
- Applying any patch to any document does what the patch means: the node each pointer leads to, what an addition, a
  removal, a replacement, a copy, a move and a test make of the document, and every status (`PatchMeets.AppliesAsMeant`,
  and `PatchMeets.RunsAsMeant` for lists). A copy or move gives status 5 exactly when its source is not there, a removal
  or replacement 13 exactly when its child is not there, an addition 9, 11 or 10 exactly when there is no container, no
  index, or an index beyond the end (`PatchStatus.SourceMissing`, `PatchStatus.ChildMissing`,
  `PatchStatus.TargetRefuses`).
- A buffer is parsed to a tree if and only if it is a text of that tree within 1000 levels: white space of any bytes up
  to 32 between tokens, every escape, the forms of numbers with their longest match, and behind the text anything or, on
  demand, only white space and a last NUL (`GrammarParse.DocumentIsRead`, `GrammarParse.ValueIsRead`).
- Formatted text is laid out by rules that are read off its bytes (`Layout.FormattedLayout`), unformatted text has no
  white space outside literals (`Layout.UnformattedLayout`), and each character of a literal is written as the shortest
  piece without control bytes that is read back as it (`GrammarLiterals.EscapeIsShortest`).
- Minifying is a machine with seven modes that reads one byte at a time (`MinifyLaws.MinifiedIsKept`): a line comment, a
  block comment or a white-space byte outside literals can be left out of any text without changing the result.
- Printing and parsing are inverse (`RoundTrip.PrintedTextParses`), and a printed text is parsed if and only if the tree
  is within the nesting limit (`NestingLimit.ParsesWithinLimit`).
- A fixed print buffer suffices if and only if it has two bytes more than the text (`PrintBuffer.PrintPreallocated`).
- The pointer found for a node leads back to that very node (`Paths.DiscoveryInvertsLookup`).
- `sort_list` turns a chain into the chain of the same nodes that the sorting function gives (`SortList.SortList`). The
  link from the head to the tail is right afterwards if and only if the first key is strictly below every other and the
  last strictly above (`SortList.SortObject`); otherwise an item appended next is dropped, or cuts off what is behind the
  old tail (`SortList.SortThenAdd`).
- Parsing builds a completely linked tree of new nodes that says what the parsing function says; it gives nothing
  exactly when the text is malformed or an allocation is refused, and then leaves nothing behind
  (`ParseTree.ParseWithLengthOpts`). Duplicating does the same with the tree's depth in place of the text
  (`DuplicateTree.Duplicate`).
- A successful patch `add` is undone exactly by `remove` if and only if its path is restorable
  (`PatchUndo.AddThenRemove`).

A patch `test` sorts what it compares inside the document. The outcome of applying patches therefore has three parts:
the status, the document, and whether every object sorted so far kept its link from head to tail (`linked`). As long as
that is so the document is the code's; from the first object that loses its link, appending to it in the code gives
what `SortList.SortThenAdd` says instead.

The repository's own README says that comparing walks members pairwise in order (README.md:158); the code looks members
up by key in both directions (src/manip.rs:1248-1275), and the model follows the code.

## Model

| member | source | states |
|---|---|---|
| Bytes.CStrCmp | src/utils.rs:26-37 | two cursors compute the difference at the first position where the strings differ |
| Bytes.StrCmpZero | src/utils.rs:26-37 | the comparison is 0 exactly for equal strings |
| Bytes.CCompareStrings | src/utils.rs:55-81 | the loop with the case flag compares the strings, or their lower-case forms |
| Unicode.ParseHex4 | src/parse.rs:118-138 | the loop gives the value of four hex digits, and 0 if any of them is not one |
| Unicode.SpellsHex4 | src/parse.rs:118-138 | the value that is read is the one code unit whose four base-sixteen digits, in either case, are written there, and there is one exactly if all four bytes are such digits |
| Unicode.DecodesUtf16 | src/parse.rs:141-173 | a well-formed escape is accepted if and only if it spells a Unicode scalar value in UTF-16, and decodes to it; lone and reversed surrogates are rejected |
| Unicode.EncodesUtf8 | src/parse.rs:175-209 | the bytes written are the only valid UTF-8 sequence that carries the code point |
| Unicode.WriteUtf8 | src/parse.rs:175-209 | the loop from the last byte to the first writes that sequence behind what is in the output |
| ParseSpec.ParseText | src/parse.rs:675-758 | for every input: a reported error position is below the length, a parsed tree nests at most 1000 levels and ends inside the input |
| ParseSpec.ParseValue | src/parse.rs:404-446 | every success moves forward and keeps depth plus nesting within the limit; the offset never leaves the buffer |
| ParseSpec.ParseItems | src/parse.rs:449-535 | the same bounds for the elements of an array, whatever was collected before; which bytes are elements is `GrammarParse.ItemsAreRead` |
| ParseSpec.ParseMembers | src/parse.rs:538-654 | the same bounds for the members of an object; which bytes are members is `GrammarParse.MembersAreRead` |
| GrammarLiterals.LiteralIsRead | src/parse.rs:279-401 | for every buffer and position: a string is read exactly where the grammar has a literal, up to the first quote that an even run of backslashes precedes, as what its pieces stand for up to the first NUL |
| GrammarLiterals.EscapeIsShortest | src/print.rs:207-295 | what is written for a character is the shortest piece without control bytes that stands for it, in lower case |
| GrammarNumbers.NumberIsRead | src/parse.rs:212-276 | a number is read exactly as far as the longest numeral goes, as the integer kept of what the numeral denotes |
| GrammarParse.ItemsAreRead | src/parse.rs:486-520 | the loop over elements succeeds exactly on texts of elements with white space around each and a comma between any two, up to a closing bracket, and adds just them |
| GrammarParse.MembersAreRead | src/parse.rs:575-640 | the same for members: a literal, a colon and a text, white space around each |
| GrammarParse.ValueIsRead | src/parse.rs:404-654 | a value is read at a position and depth if and only if the bytes there are a text of it and it fits into the nesting limit |
| GrammarParse.DocumentIsRead | src/parse.rs:675-758 | a buffer is parsed to a tree and an end if and only if it is an optional byte order mark, white space and a text of that tree within the limit, with the demanded white space and NUL behind it |
| GrammarParse.ReadOneWay | src/parse.rs:404-654 | from one position on, bytes are a text in one way at most |
| ParseBuffer.DecodedFits | src/parse.rs:301-394 | for every byte buffer, what the second pass decodes fits into what the first pass counted, however malformed the escapes are |
| ParseBuffer.ParseBuffer.SkipWhitespace | src/parse.rs:73-91 | the loop skips white space and steps back at the end of the buffer |
| ParseBuffer.ParseBuffer.ParseNumber | src/parse.rs:212-276 | the number, its end and the saturated integer, or a failure without a move |
| ParseBuffer.ParseBuffer.ScanString | src/parse.rs:301-319 | the first pass finds the closing quote and counts the skipped bytes |
| ParseBuffer.ParseBuffer.DecodeString | src/parse.rs:329-394 | the second pass writes the decoded bytes, all of them inside the output |
| ParseBuffer.ParseBuffer.ParseString | src/parse.rs:279-401 | both passes together: the string, the offset after it, and where it stops on failure |
| ParseBuffer.ParseBuffer.ParseValue | src/parse.rs:404-446 | the methods on the buffer compute the parsing functions and restore the depth on success |
| ParseBuffer.ParseBuffer.ParseArray | src/parse.rs:449-535 | the loop over elements computes the function that reads exactly the arrays of the grammar |
| ParseBuffer.ParseBuffer.ParseObject | src/parse.rs:538-654 | the loop over members computes the function that reads exactly the objects of the grammar |
| ParseBuffer.ParseWithLengthOpts | src/parse.rs:675-758 | the whole parse with BOM, trailing-NUL flag and error position |
| RoundTrip.ParseQuoted | src/parse.rs:279-401 | the quoted text of any NUL-free string is read back as that string |
| RoundTrip.ParseDecimal | src/parse.rs:212-276 | the printed text of any 32-bit integer is read back as that integer |
| RoundTrip.ParsesPrinted | src/print.rs:303-528 | in any context the printed text of a tree is parsed to that tree, and exactly to its end |
| RoundTrip.PrintedTextParses | src/print.rs:303-528 | print/parse round trip, formatted or not, for every tree within the common nesting limit, duplicate keys and member order included |
| NestingLimit.ParsesWithinLimit | src/parse.rs:449-535 | a printed text is parsed if and only if the tree nests at most 1000 levels, the limit of the printer too |
| PrintBuffer.PrintBuffer.Ensure | src/print.rs:35-109 | success keeps the written prefix and leaves room for the needed bytes and one more within INT_MAX; failure only where the memory is out of reach |
| PrintBuffer.PrintBuffer.UpdateOffset | src/print.rs:112-118 | the offset moves to the NUL |
| PrintBuffer.PrintBuffer.PrintString | src/print.rs:207-295 | the escaped text, written in two passes |
| PrintBuffer.PrintBuffer.PrintValue | src/print.rs:303-353 | a tree's text is appended behind what was printed, or the printer fails where it must |
| PrintBuffer.PrintBuffer.PrintArray | src/print.rs:356-413 | the same for arrays and their separators |
| PrintBuffer.PrintBuffer.PrintObject | src/print.rs:416-528 | the same for objects; the text it appends, with or without format, keeps to the layout |
| Layout.FormattedLayout | src/print.rs:356-528 | outside literals every line break is followed by as many tabs as brackets and braces are open, one fewer before the brace that closes; line breaks stand behind each opening brace and each comma of an object and before each closing brace, one space behind each comma of an array, one tab behind each colon, and nothing else of the kind |
| Layout.UnformattedLayout | src/print.rs:356-528 | without format there is no white space and no control byte outside literals |
| PrintBuffer.PrintPreallocated | src/print.rs:649-676 | success if and only if the nesting is within the limit and length is at least the text's length plus two; then text and NUL are in the buffer |
| PrintBuffer.PrintBuffered | src/print.rs:611-646 | the same text for every initial size and for growing in place or by copying; failure only for a negative size, a refused allocation, nesting, or INT_MAX |
| PrintBuffer.Print | src/print.rs:531-598 | the trimmed buffer holds exactly the text and its NUL |
| MergeSort.SortIsSort | src/utils.rs:435-535 | the sort gives an ordered rearrangement, and leaves a strictly ascending list as it is |
| MergeSort.SortedStrictly | src/utils.rs:435-535 | with distinct keys every item is strictly below all that follow |
| MergeSort.FirstStays | src/utils.rs:486-514 | the first item is first after sorting if and only if its key is strictly below every other: a tie goes to the second chain |
| MergeSort.LastStays | src/utils.rs:486-534 | the last item is last after sorting if and only if its key is strictly above every other |
| MergeSort.AppendsToSorted | src/utils.rs:538-543 | appending from the old tail behind sorting keeps all items if and only if both ends stay |
| MergeSort.EndsAtInputs | src/utils.rs:486-534 | keys b, a: the head moves; a, c, b: only the tail; a, c, b, d: neither, though the list is not in order |
| Nodes.GetArrayItem | src/manip.rs:187-197 | walks to the element, or to nothing behind the end |
| Nodes.AddItemToArray | src/manip.rs:312-329 | on any chain whose head has no `prev` or one of the chain: the item stands behind the node that the head names, what was behind it is cut off, and all links are right; without a `prev` nothing is written and the answer is yes |
| Nodes.DetachItemFromArray | src/utils.rs:369-396 | detaches the element at a place, or nothing behind the end; all links stay right and the detached node is unlinked |
| Nodes.DetachItemViaPointer | src/manip.rs:510-537 | removes that element from the sequence, keeps all links, and leaves the detached node unlinked |
| Nodes.InsertItemInArray | src/manip.rs:587-615 | inserts in front of element `which`, or appends behind the end, keeping all links |
| Nodes.InsertItemInArrayStrict | src/utils.rs:623-655 | inserts at every place up to the end, and refuses places beyond it |
| Nodes.ReplaceItemViaPointer | src/manip.rs:618-656 | replaces that element in the sequence, keeps all links, and unlinks the replaced node |
| SortList.Split | src/utils.rs:463-478 | two cursors cut the chain in half |
| SortList.MergeChains | src/utils.rs:486-534 | the relinked chain is the functional merge of the two chains, of exactly their nodes |
| SortList.SortList | src/utils.rs:435-535 | for every chain, also of nodes without names: terminates with a null-terminated chain of the same nodes, every non-head `prev` its predecessor, the head's `prev` kept or null; with names, in the order of the sorting function, and a strictly ascending chain is not written to |
| SortList.SortObject | src/utils.rs:538-543 | the child pointer is set to the sorted chain; the head-to-tail link is right if and only if the first key is strictly below every other and the last strictly above; the head's `prev` is the old tail or null |
| SortList.SortThenAdd | src/manip.rs:312-329 | adding behind sorting: the exact list that is left; the item is appended to the whole list if and only if both ends stayed, dropped if the head moved, and cuts off the rest if only the tail moved |
| Ownership.Delete | src/manip.rs:151-170 | every node and string of the chain is freed exactly once, and nothing else |
| DuplicateTree.NewCopy | src/manip.rs:937-974 | one node with its strings; a refused allocation leaves the live set as it was |
| DuplicateTree.CopyChildren | src/manip.rs:979-1002 | the loop over children: complete, or everything freed |
| DuplicateTree.Duplicate | src/manip.rs:937-1019 | nothing exactly when an allocation is refused or the tree is too deep, and then the live set is unchanged; otherwise a tree of fresh objects, equal in contents, with all links including head to tail |
| ParseTree.ParseString | src/parse.rs:279-401 | the string's memory is granted before it is decoded into, kept on success and freed on failure |
| ParseTree.ParseNumber | src/parse.rs:212-276 | the temporary copy is freed on every path |
| ParseTree.ParseValue | src/parse.rs:404-446 | the node becomes the root of a complete, fully linked tree of new objects that says the parsed value, or nothing more is in use than before |
| ParseTree.Grow | src/parse.rs:487-502 | a new node is linked behind the children so far, or all of them are freed |
| ParseTree.GiveUp | src/parse.rs:506-512 | the children and the unfinished node are freed |
| ParseTree.Complete | src/parse.rs:527-533 | the head gets its link to the tail and the list is hung below the item |
| ParseTree.ParseItems | src/parse.rs:486-525 | the loop over elements builds their list, or leaves nothing behind |
| ParseTree.ParseArray | src/parse.rs:449-535 | the same promise for arrays |
| ParseTree.ParseNamed | src/parse.rs:592-631 | the string parsed first becomes the member's name, then its value is parsed into the same node |
| ParseTree.ParseMembers | src/parse.rs:574-644 | the loop over members builds their list, or leaves nothing behind |
| ParseTree.ParseObject | src/parse.rs:538-654 | the same promise for objects |
| ParseTree.ParseWithLengthOpts | src/parse.rs:675-758 | nothing exactly for a malformed text, with its error position, or a refused allocation, and then the live set is unchanged; otherwise a complete tree of new objects that says the parsed text |
| Json.CopyableHigher | src/manip.rs:979-986 | what can be duplicated can be duplicated from any smaller depth |
| Compare.CCompare | src/manip.rs:1192-1279 | the walks over siblings compute the two-way comparison |
| Compare.CompareIsSame | src/manip.rs:1192-1279 | on distinct keys, comparing is equality up to member order |
| CompareWalk.CCompareSorted | src/utils.rs:546-620 | the sort-and-walk comparison as the source runs it, with what it leaves of both trees |
| CompareWalk.LeftSame | src/utils.rs:589-610 | what is left of a compared tree is the same tree up to member order |
| Compare.CompareSortedIsSame | src/utils.rs:546-620 | on distinct keys, it too is equality up to member order; with the case flag off, where no two keys of compared objects agree ignoring case |
| Compare.EqualityTestsAgree | src/utils.rs:546-620 | the two tests always give the same answer on distinct keys |
| CompareLoosely.ComparesLowered | src/manip.rs:1192-1279 | with the case flag off, comparing two trees gives what comparing them with lower-cased keys gives with the flag on |
| CompareLoosely.ComparesSortedLowered | src/utils.rs:546-620 | the same for the test by sorting |
| CompareLoosely.LooseTestsAgree | src/manip.rs:1192-1279 | with the flag off, where no two keys of an object agree ignoring case, both tests are equality of the trees with lower-cased keys up to member order |
| Pointer.EncodedLength | src/utils.rs:130-142 | counts exactly the bytes of the encoding |
| Pointer.EncodeInto | src/utils.rs:145-162 | writes exactly the encoding and its NUL |
| Pointer.EncodeInjective | src/utils.rs:145-162 | different keys have different encodings |
| Pointer.CComparePointers | src/utils.rs:93-127 | the loop over key and token computes the matching function |
| Pointer.MatchesItsEncoding | src/utils.rs:93-127 | a key matches a token if and only if the token is its encoding |
| Pointer.MatchesLoosely | src/utils.rs:93-127 | ignoring case, if and only if in lower case the token is its encoding |
| Pointer.CDecodeIndex | src/utils.rs:258-280 | no leading zeros, only digits, wrapping like `usize` |
| Pointer.IndexDecodes | src/utils.rs:258-280 | the decimal text of an index decodes to that index |
| Pointer.DecodesNamed | src/utils.rs:258-280 | a token is decoded to an index if and only if it is empty and the index is 0, or it is the decimal text of a number that is the index modulo the width of `usize` |
| Paths.GetItemFromPointer | src/utils.rs:283-326 | the loop follows the pointer as the lookup function does |
| Paths.FindPointer | src/utils.rs:165-241 | the search writes each step into memory reserved at 20 digits or at the encoded length, always enough |
| Paths.DiscoveryInvertsLookup | src/utils.rs:165-241 | a pointer is found exactly for the nodes of the tree, and looking it up gives back that very node, for keys with any bytes |
| DecodeInPlace.DecodePointerInPlace | src/utils.rs:342-366 | what the in-place loop leaves in memory, its slips included |
| DecodeInPlace.DecodesToken | src/utils.rs:342-366 | of every token: a tilde where the encoded key has one, a slash one place behind each slash of the key, elsewhere the byte that stood there; as long as the key, or as the whole token when an escape is malformed |
| DecodeInPlace.DecodesExactly | src/utils.rs:342-366 | decoding undoes the encoding of a key if and only if the key has no slash and no ordinary byte that an escape before it displaces |
| DecodeInPlace.PlainKeys | src/utils.rs:342-366 | keys without escapes are such keys, also with tildes at the end |
| DecodeRank.RankGrows | src/utils.rs:342-366 | a key that decoding changes is taken for a key of higher rank, also ignoring case, so that no chain of mistakes comes back |
| DecodeRank.MistakenLoosely | src/utils.rs:342-366 | what a key is taken for agrees with it ignoring case only if decoding leaves it alone |
| PatchEngine.CLastSlash | src/utils.rs:39-52 | the forward scan finds the last slash |
| PatchEngine.Document.DetachPath | src/utils.rs:399-432 | detaches the node the path names, its last step ignoring case whatever the flag says |
| PatchEngine.Document.AddAt | src/utils.rs:870-923 | adds the value at the path, or the status of the failure |
| PatchEngine.Document.EditAt | src/utils.rs:812-923 | one operation behind the special cases, with every status code and the document it leaves; that these are the right ones is `PatchMeets.AppliesAsMeant` |
| PatchEngine.Document.TestAt | src/utils.rs:748-763 | a test compares, and leaves the objects it walked sorted in the document |
| PatchEngine.Document.ApplyPatch | src/utils.rs:729-924 | the method on the document computes the apply function: status, new document, and whether the links of the objects it sorted are still right |
| PatchEngine.Document.ApplyPatches | src/utils.rs:927-975 | in order, until one fails; the document is the code's as long as no earlier test broke a link |
| PatchEngine.PatchList.ComposePatch | src/utils.rs:978-1034 | appends one patch, its path composed in exactly the reserved memory |
| PatchEngine.PatchList.CreatePatches | src/utils.rs:1086-1223 | the loops append exactly the generated patches to the list, and leave both trees sorted as the function says |
| PatchEngine.PatchList.MemberPatches | src/utils.rs:1148-1220 | the walk over two sorted objects |
| PatchEngine.PatchList.ItemPatches | src/utils.rs:1119-1147 | the three loops over array elements |
| PatchEngine.GeneratePatches | src/utils.rs:1226-1250 | both public entry points, with what they leave of the two trees |
| PatchGenerate.BehindSame | src/utils.rs:1148-1220 | what generating leaves of a tree is the same tree up to member order |
| PatchUndo.AddThenRemove | src/utils.rs:812-923 | a successful add followed by remove at the same path gives the document back exactly, order included, if and only if the path is restorable |
| PatchUndo.LookupAfterPut | src/utils.rs:283-326 | a path leads to the same place when only the node there has changed |
| CanonPath.Follow | src/utils.rs:283-326 | the text of a token path is followed to the node that the path names up to member order |
| PatchSteps.ComposedFields | src/utils.rs:978-1034 | what the applier reads from a composed patch is what was put in |
| PatchSteps.AddsMember | src/utils.rs:853-923 | an add patch for a key changes the object at the path by that key and nothing else |
| PatchSteps.RemovesMember | src/utils.rs:399-432 | a remove patch takes exactly that key out |
| PatchSteps.ReplacesMember | src/utils.rs:812-923 | a replace patch changes exactly that key |
| PatchSteps.AppendsItem | src/utils.rs:888-891 | an add patch at `-` appends one element |
| PatchSteps.RemovesItem | src/utils.rs:399-432 | a remove patch takes exactly that element out |
| PatchSteps.ReplacesItem | src/utils.rs:812-923 | a replace patch changes exactly that element |
| PatchOperations.AddThenTest | src/utils.rs:729-924 | after a member is added, a test there succeeds exactly for values that are the same up to member order, and leaves the document the same up to member order |
| PatchOperations.Tests | src/utils.rs:748-763 | at any path, a test succeeds exactly for what is there up to member order, leaves the document the same up to member order, and keeps the links exactly where every object it sorts keeps both ends |
| PatchOperations.TestThenAdd | src/utils.rs:748-923 | adding behind a successful test: status 0 and the member under its key, with the links as the test left them |
| PatchOperations.TestThenAddDrops | src/utils.rs:748-923 | the document {"b":1,"a":2}, a test of its root and then c: status 0, and the list of the code lacks c |
| PatchOperations.CopiesTo | src/utils.rs:827-923 | a copy puts what is at the source under a key, in front of an element or behind the last one, and changes nothing else |
| PatchOperations.MovesTo | src/utils.rs:827-923 | a move takes a member or an element out and puts it under a key, in front of an element or behind the last one of what is then at the path |
| PatchTests.TestsAlike | src/utils.rs:546-620 | with either flag both equality tests say whether two trees are alike: the same up to member order, keys as far as the flag looks at them |
| PatchMeets.LooksWhereItLeads | src/utils.rs:283-326 | a lookup finds something exactly if the pointer leads along a path, token by token, and then finds the node there |
| PatchMeets.DetachMeets | src/utils.rs:399-432 | a child is detached exactly if there is one of that index, or of that key ignoring case, and such a one is taken out and handed over |
| PatchMeets.PutMeets | src/utils.rs:870-923 | a value is put under its key, before an element or behind the last one, or the status says why not and nothing changes |
| PatchMeets.AppliesAsMeant | src/utils.rs:729-924 | with either flag, for every patch that does not remove the root: the status and the document are those the patch means; only a test can leave an object without its link |
| PatchMeets.RunsAsMeant | src/utils.rs:952-975 | a list of patches does, one after the other until one fails, what each means |
| PatchStatus.NotAPatch | src/utils.rs:738-747 | status 2 exactly without a path, 3 exactly with a path and no known operation |
| PatchStatus.TestFails | src/utils.rs:748-763 | status 1 exactly for a test whose value is not alike what its path leads to |
| PatchStatus.ChildMissing | src/utils.rs:812-825 | status 13 exactly for a removal or replacement below the root whose child is not there |
| PatchStatus.SourceMissing | src/utils.rs:827-852 | status 4 exactly for a copy or move without a source text, 5 exactly when the source is not there, 6 exactly for a copied tree that is too deep |
| PatchStatus.TargetRefuses | src/utils.rs:853-923 | an addition below the root: 7 exactly without a value, 8 exactly for one too deep, and else 9, 11, 10 exactly when there is no container, no index, an index beyond the end |
| PatchStatus.FailureKeeps | src/utils.rs:729-924 | a failing patch other than a replacement or a move leaves the document the same up to member order |
| PatchStatus.TextLeads | src/utils.rs:283-326 | the text of a path with keys for objects and indices for arrays leads somewhere exactly if the path is there |
| PatchStatus.ChildIsThere | src/utils.rs:399-432 | behind such a path there is a child to take out exactly if the array is long enough or the object has the key ignoring case |
| PatchStatus.IndexTextIsKey | src/utils.rs:302-313 | a path with an index where an object stands: its text can still lead to a member, the key `0` |
| PatchSpares.ListSpares | src/utils.rs:729-924 | patches that run to their end leave a member alone that no last key is taken for and that none goes on below |
| PatchEdits.GeneratedBelow | src/utils.rs:1086-1223 | patches for two trees that are walked side by side all end below them; any other pair gives one replacement |
| PatchEdits.MissesOne | src/utils.rs:342-366 | among edited keys that are taken for others, one is hit by no patch |
| PatchRoundTrip.TransformsItems | src/utils.rs:1119-1147 | the patches for two arrays, wherever the first stands in a document, change it and nothing else or fail; they reach the second exactly if every pair of elements survives |
| PatchRoundTrip.TransformsMembers | src/utils.rs:1148-1220 | the same for what is left of two sorted objects none of whose edited keys is taken for another |
| PatchRoundTrip.MissesGoal | src/utils.rs:1148-1220 | two objects with an edited key that is taken for another: the patches fail or leave something else than the goal |
| PatchRoundTrip.Transforms | src/utils.rs:1086-1223 | the same for any two trees, at any path: the second is reached if and only if no key that a patch ends in is taken for another |
| PatchRoundTrip.PatchRoundTrip | src/utils.rs:1086-1223 | generating and applying, from any copy of the first tree: status 0 and a tree equal to the goal up to member order if and only if the decoder leaves alone every key that a patch ends in |
| PatchLimits.RemovalIsExact | src/utils.rs:399-432 | at any path, a generated removal takes exactly the member it was made for if and only if the decoder leaves the key alone and no earlier member agrees with it ignoring case |
| PatchLimits.ShiftedKeyFails | src/utils.rs:342-366 | a tree with the key `~a`: the generated patch fails with status 13 |
| PatchLimits.CaseCollisionFails | src/utils.rs:427 | two keys that differ in case: the generated patch removes the wrong one |
| Merge.CMergePatch | src/utils.rs:1263-1313 | the loop over the patch members computes the merge function |
| Merge.MergeMeetsRfc7396 | src/utils.rs:1263-1313 | the merge is the function of section 2 of RFC 7396 on objects as maps; it gives nothing exactly when a value cannot be duplicated |
| MergeOrder.MergeOrder | src/utils.rs:1263-1313 | unnamed members stay in order, named ones follow in the order of the patch |
| MergeOrder.MergeTwice | src/utils.rs:1263-1313 | merging the same patch again changes nothing, order included |
| MergeGenerate.CGenerate | src/utils.rs:1329-1405 | the loops compute the generated merge patch, with the case flag dropped below the root, values taken as the comparison before has sorted them, and both trees left sorted |
| MergeGenerate.BehindSame | src/utils.rs:1329-1405 | what generating leaves of a tree is the same tree up to member order |
| MergeRoundTrip.GenerateTells | src/utils.rs:1329-1405 | nothing is generated exactly for two objects that are the same; otherwise the patch leads to the goal if and only if the goal can be expressed; capitals are fine where the two orders of keys agree |
| MergeRoundTrip.MergeRoundTrip | src/utils.rs:1329-1405 | merging the patch into any copy of the first tree gives the goal up to member order if and only if the difference can be expressed; in particular when the goal has no null below objects |
| MergeRoundTrip.SortIgnoresCase | src/utils.rs:435-535 | where the two orders of keys agree, sorting ignoring case is sorting |
| MergeMeeting.KeysAfterMerge | src/utils.rs:1346-1396 | for all objects without null values and either flag: a key is there after merging if and only if the goal has it and the walk does not meet it in the goal's sorted list first |
| MergeMeeting.EqualIsNotPatched | src/utils.rs:1379-1391 | values under a shared key that compare as equal, if only ignoring case, are left as they were |
| MergeMeeting.MeetsInOrder | src/utils.rs:1346-1396 | over lists in byte order the walk meets every shared key in both at once |
| MergeRoundTrip.CapitalGenerates | src/utils.rs:1346-1396 | with a capital letter the walk adds a key and then removes it again |
| MergeRoundTrip.CapitalIsLost | src/utils.rs:1263-1313 | merging that patch loses the member |
| Minify.Minify | src/manip.rs:1073-1107 | the in-place loop leaves the minified text; the write cursor never passes the read cursor |
| Minify.MinifyString | src/manip.rs:1050-1070 | a literal is copied down unchanged |
| Minify.SkipSlash | src/manip.rs:1028-1048 | at a slash: the rest of the text is minified as it is behind the comment, or behind the lone slash |
| MinifyLaws.MinifiedIsKept | src/manip.rs:1028-1107 | for every text, minifying gives the bytes that a machine with seven modes keeps, reading one byte at a time |
| MinifyLaws.LineCommentIsDropped | src/manip.rs:1028-1037 | a line comment outside literals disappears with its line end, and nothing behind it does |
| MinifyLaws.BlockCommentIsDropped | src/manip.rs:1039-1048 | a block comment disappears up to its first end, and nothing behind it does |
| MinifyLaws.OpenCommentIsDropped | src/manip.rs:1028-1048 | a comment that is not closed takes the rest of the text with it, and nothing before it |
| MinifyLaws.LiteralIsKept | src/manip.rs:1050-1070 | a literal stays as it is, whatever stands in it |
| MinifyLaws.ByteIsKept | src/manip.rs:1078-1098 | outside literals and comments the four bytes of white space disappear, and every other byte stays that is no slash and opens no literal |
| Minify.MinifiedTwice | src/manip.rs:1028-1107 | minifying is idempotent on every byte string |
| MinifyText.MinifyUndoesFormatting | src/manip.rs:1028-1107 | the minified formatted text is the unformatted text if and only if no key and no string ends in a backslash, the last leaf of nested last elements aside |
| MinifyText.TrailingBackslashFails | src/manip.rs:1062-1066 | a string that ends in a backslash: the space behind it stays |

## Left out

- Floating point: numbers are the `valueint` of a node. `strtod` is modelled with exact decimal arithmetic;
  `valuedouble`, the `%g` path, rounding and the epsilon comparison are not part of this model.
- Locale: the decimal point is always a dot.
- Raw nodes, reference and const-key flags, NULL-argument guards, and the type predicates, `Create*` and `Add*ToObject`
  helpers: branches settled by reading one body.
- src/ffi.rs and the hook plumbing: thin wrappers; the allocator appears as methods that may refuse.
- Trees in the patch, merge and compare code are values: updating in place and node identity beyond a position are not
  captured there. What sorting leaves of the order of members is (`CompareWalk.Left`, `PatchGenerate.Behind`,
  `MergeGenerate.Behind`); the link from head to tail is, for documents, a yes or no (`linked`), and what appending
  without it does is proved on the heap only (`SortList.SortThenAdd`). So applying a patch to the very tree that
  generating has just sorted is stated by values, as for any other copy.
- Keys that array elements keep from an earlier place in an object: a value has a key only inside an object.
- The shortcut of `cJSON_Compare` for two identical pointers: it compares different nodes.
- Failing allocations in composing patches and in merging: there, memory is always granted; the parser, the printer and
  duplicating have an allocator that may refuse.
- GLOBAL_ERROR: the error position is a returned value. Of a malformed text the position is stated as a bound only.
- Bit operations are written as arithmetic.
- PatchRoundTrip.PatchRoundTrip: for objects in which no two keys agree ignoring case. Where some do, which member a
  removal takes depends on the order of members, which every edit before it changes; for one removal the exact condition
  is `PatchLimits.RemovalIsExact`.
- PatchMeets.AppliesAsMeant: with the case flag off, for documents and values in which no two keys of an object agree
  ignoring case; with the flag on, in which no key is repeated. Where keys agree, the first member in the list is taken.
- PatchMeets.RunsAsMeant: with the case flag on, and for lists that do not remove the root.
- PatchEngine.Document.ApplyPatches: from the first test on that breaks a link, the document need not be the code's.
- MergeRoundTrip.MergeRoundTrip: where, in objects walked with the case flag off, the order of keys ignoring case is
  their byte order. Without that, `MergeMeeting.KeysAfterMerge` says exactly which keys survive, not their values.
- MergeMeeting.KeysAfterMerge: for values that are not null and can be duplicated; a null value in the goal is a removal.
- PrintBuffer.PrintBuffered: a size of 0 is left out where buffers grow by copying, because `ensure` then copies a byte
  that the buffer does not have; the first allocation is always granted.
- PrintBuffer.Print: the final shrinking with `realloc` is modelled as allocating and copying.
- ParseTree.ParseString: the memory is granted with the contents that the second pass will write; the writing itself is
  in `ParseBuffer.ParseBuffer.DecodeString`.
- SortList.SortList: the order of nodes without names is not stated; a comparison without a name always answers 1.
- Nodes.AddItemToArray: the new item must be unlinked, as every new or detached item is; the code does not reset its
  `next`.
- Nodes.ReplaceItemViaPointer: without the deletion of the replaced item.
- DuplicateTree.Duplicate: the recursive form, and for nodes that own their children and strings.
