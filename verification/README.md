# libks verification

Models of the stateful parts of libks and proofs about them. Each module follows one source component, in the form that the
component has: code that changes memory step by step is a class or a method over an array, proved against a function; code
shared between threads is a state machine over its critical sections, or over its single loads and stores where it has no
lock.

| component | modules |
|---|---|
| lists (`src/simclist.c`) | `SimCList` (links, middle, editing), `SimCListWhole` (representation check, concatenation), `SimCListSort` |
| JSON text (`cJSON.c`) | `KJson`, `KJsonText` (what is printed), `KJsonGrammar` (what is parsed), `KJsonParser`, `KJsonPrinter`, `KJsonMinify` (the code); `KJsonNumbers`, `KJsonSpelling` (JSON as a relation between bytes and trees), `KJsonAccepts`, `KJsonPrinted`, `KJsonPieces`, `KJsonUnicode`, `KJsonRoundTrip` (what it means) |
| JSON patches (`cJSON_Utils.c`) | `KJsonStrings`, `KJsonSort`, `KJsonSortList`, `KJsonPatch`, `KJsonMeaning`, `KJsonPointers` (RFC 6901), `KJsonEffects`, `KJsonOperations` (RFC 6902), `KJsonDiff`, `KJsonLocal`, `KJsonMerge`, `KJsonMergeProof`, `KJsonEscape` (functions and their meaning); `KJsonTree`, `KJsonLinks`, `KJsonCompare`, `KJsonStray`, `KJsonDocument`, `KJsonTested`, `KJsonPatcher` (linked nodes in place: comparing, detaching, patching, generating), `KJsonMerger` (merging) |
| blocking queue (`src/ks_q.c`) | `KsQ` (threads), `KsQNodes` (nodes) |
| WebSocket frames (`src/kws.c`) | `KwsFrames` (bytes), `KwsRfc` (frames by RFC 6455), `Kws` (reader and writer) |
| hash table (`src/ks_hash.c`) | `KsHash` (values), `KsHashTable` (linked chains), `KsHashDrain` (iterator) |
| read-write lock (`src/ks_mutex.c`) | `KsRwl` |
| thread pool (`src/ks_thread_pool.c`) | `KsThreadPool` |
| memory pool (`src/ks_pool.c`) | `KsPool` |
| byte buffer (`src/ks_buffer.c`) | `KsBuffer` |

The main results:

- Sorting a list leaves a permutation in order, for every comparison that is a total preorder, either direction and every
  pivot; the representation check of the list accepts exactly the lists that have a complete chain with its middle in place.
- The parser accepts exactly the texts that spell a tree nested at most 1000 deep, by a grammar stated apart from it, and that
  is every JSON text of RFC 8259; what is printed is such a text, with the number, string and layout texts pinned one by one.
- Parsing undoes printing in either layout, exactly up to the nesting limit, with numbers rounded to six decimals; minifying
  undoes the layout; the growing print buffer always holds the text printed so far and succeeds exactly when the text fits.
- The six operations of RFC 6902 do what the RFC says on every place of a tree, or fail with the status stated; pointers are
  read as RFC 6901 says save in the last name, where the exact condition is proved.
- Generated RFC 6902 patches lead from one tree to the other, also where applying them relinks a tree of nodes in place, and
  concern only what differs; no patch is generated exactly when `compare_json` finds no difference. Comparing sorts linked nodes in place and decides
  equality; detaching a node leaves a tree exactly if no predecessor that sorting left behind is in the way.
- `merge_patch` is the function of RFC 7396, also on linked nodes, and generated merge patches work exactly for the targets
  that RFC 7396 can express, wherever sorting brings the names into `strcmp` order.
- No wakeup of the queue is lost in any interleaving, and nobody sleeps after its termination; as long as it is active, each
  call succeeds exactly when there is an item or room, with the oldest item.
- The reader sees a frame exactly where RFC 6455 has one, masked bit by bit, and the writer sends such frames. Frames are read
  back under every split into short reads, fragments reassemble, and a stream of messages comes back message by message.
- The hash table is a finite map across growth; the drain loop visits every entry once.
- The lock excludes writers and readers on every run exactly if write locks nest at most 2^32 deep, and its unsynchronised
  ownership test is then never wrong; the thread pool's counters never wrap, and it makes the workers that its numbers ask for.

Where the code does something else than its comments or its callers might expect, the code is modelled and the exact
condition is proved:

- Merging in `sort_list` ignores case even when sorting is to respect it. The sort is right for all lists of names on which
  the two orders agree (`KJsonDiff.AgreeingNamesAreSorted`), and of two names it is right exactly when `strcmp` already has
  them in order or they are not in order without regard to case (`TwoNamesSorted`).
- So patches generated with regard to case can lose a member: from `{"a": null, "B": null}` towards `{"B": null}` "B" is added
  before it is removed. They reach every target exactly if the source sorts by case (`KJsonDiff.CaseSensitiveWorksIff`,
  `UnsortedSourceFails`, `UnsortedSource`).
- Generating merge patches sorts either way but walks by `strcmp`, so it can lose a member in both modes: the same object is
  an example (`KJsonMergeProof.UnsortedForMerging`). Every expressible target is reached exactly if the sort brings the source
  into `strcmp` order (`GeneratedMergeWorksIff`, `UnsortedMergeFails`).
- `sort_list` leaves the first node the `prev` pointer it had. A "test" sorts the objects that it compares, so the first member
  of a tested object can be left with a predecessor. Detaching it overwrites the next of that predecessor. What is left is a
  tree exactly if the test left the first member where it was; otherwise the members are closed to a circle
  (`KJsonTested.TestThenTakeFirst`). `{"b": 1, "a": 2}`, tested against the same members the other way round and then relieved
  of "a", is such a document (`TestedThenBroken`). `KJsonDocument.Document.ApplyPatch` says for every patch and document whether
  it comes to that (`Strays`), and `KJsonStray.DetachKeepsTreesIff` which detaching does harm.
- Names with `~` or `/` are not encoded so that they always decode again: `~` is written as `~1`, and of `/` the first byte is
  left as the memory held it. Which names still work depends on where they stand. Inside a path it is those without `~` and
  `/` (`KJsonEscape.EncodedNameMatches`, `AlwaysMatchedIff`), else the patch is refused with status 13 (`ChangeBelowName`). As
  the last name of a path it is those without `/` and with `~` at most at the end (`DecodedNameFound`, `AlwaysDecodedIff`,
  `OwnNameWorksIff`); else "remove" and "replace" are refused, while "add" can return 0 and add another name: adding `a~b` adds
  `a~/` (`TildeInsideIsCorrupted`), over a member of that name if there is one (`NeighbourIsOverwritten`). What memory that is
  full of tildes changes is stated as well (`DecodedAmongTildes`).
- The last name of a path is decoded by moving bytes only when a `~` is met, so other names with `~0` or `~1` come out wrong as
  well: exactly those without slash whose token happens to agree with them in place are understood (`KJsonPointers.LastNameIff`).
- An array index may hold letters behind a digit: "1a" is read as 59 (`KJsonPointers.LetterInIndex`), an empty token as 0
  (`IndexRead`). "remove", "replace" and "move" take the first member whose name is the same but for case, also where case is to
  count (`KJsonOperations.DetachIgnoresCase`); a "move" that finds no place has lost the value (`MoveFails`).
- The parser takes more than RFC 8259 allows: any byte up to the blank as white space, numerals such as `01`, `1.` and `-.5`,
  control characters and invalid UTF-8 in strings, and four bytes behind `\u` that are not hexadecimal, which count as 0 and
  end the string. `KJsonSpelling` without `rfc` says just what.
- Minifying takes `/*/` for a whole comment (`KJsonPieces.MinifiedByPieces`).
- A control frame between two fragments becomes a part of the message (`KwsFrames.PingIsMixedIn`).
- Generation without regard to case sees no difference in names that differ in case only (`KJsonDiff.CaseOnlyChangeIsLost`).
- Trees nested deeper than the limit print but do not parse (`KJsonRoundTrip.ParseUndoesPrint`).
- `kws_read_frame` returns the opcode of the last frame, so a reassembled message has opcode 0 (`KwsFrames.FragmentsReassemble`);
  most of its failures return 0 as well, which an empty message does too, so success is stated by the connection being up.
- `kws_write_frame` returns the payload's length after a whole frame, and also after a partial write of just that many bytes
  (`Kws.Connection.WriteFrame`).
- A connection that does not wait can answer -2 in the middle of a fragmented message, and what it had of it is lost
  (`Kws.Connection.ReadFrame`).
- Write locks nested 2^32 deep and once more wrap the counter, and the first unlock gives the lock away (`KsRwl.DeepNestingReleasesEarly`).
- `ks_pool_resize` does not adjust `user_alloc` (`KsPool.ExactIffNoNetGrowth`).
- Half of the test that lets an idle worker die is always true (`KsThreadPool.IdleWorkerMayDie`).
- `ks_buffer_write` keeps the bytes in place exactly under `KsBuffer.MayWrite` (`KsBuffer.WriteIsRightIff`).

Conventions: 0 is the null pointer, thread or reference where a number stands for one; byte strings are characters below 256
or integers below 256. Members of a class are proved to keep its `Valid` (or `Whole`), so it holds on every run of calls.
`*` stands for a value that the environment chooses: a random number, the size of a short read, whether `realloc` moves.

## Model

| member | source | states |
|---|---|---|
| SimCList.List.constructor | src/simclist.c:289-331 | a new list has its two sentinels linked to each other, no middle and no elements |
| SimCList.List.FindPos | src/simclist.c:503-530 | from whichever of head, middle and tail it starts, the node at the position is returned, sentinels included; NULL exactly outside |
| SimCList.List.GetAt | src/simclist.c:462-472 | the element at the position, NULL behind the end |
| SimCList.Splice | src/simclist.c:583-589 | the four link assignments turn a complete chain into the complete chain with the node put in |
| SimCList.Bridge | src/simclist.c:1598-1599 | two assignments take any stretch out of a complete chain |
| SimCList.List.InsertAt | src/simclist.c:553-609 | refines insertion into a sequence and keeps the invariant, with the middle at index (numels-1)/2; refused while iterating or behind the end |
| SimCList.List.MoveMid | src/simclist.c:593-602 | the parity rule moves the middle to its new place for every position |
| SimCList.List.DropElem | src/simclist.c:1585-1613 | one element less, the middle moved by the parity of the old count, the node kept as a spare if there is room |
| SimCList.List.ExtractAt | src/simclist.c:532-551 | refines removal and returns the element removed |
| SimCList.List.DeleteAt | src/simclist.c:634-652 | refines removal |
| SimCList.List.DeleteRange | src/simclist.c:674-743 | refines the removal of a range and returns its length; a range that is the whole list clears it |
| SimCList.List.MidForRange | src/simclist.c:689-700 | the middle walks to where the middle of the remaining elements will be, on either side of the range |
| SimCList.List.Clear | src/simclist.c:745-798 | empties the list, returns its old length, keeps at most five spares |
| SimCList.List.Locate | src/simclist.c:808-830 | the first element equal to the datum, -1 exactly if there is none |
| SimCListWhole.RepOk | src/simclist.c:1683-1713 | the check accepts exactly the lists that have a complete doubly linked chain of the right length with the middle in place, and it ends on every finite heap |
| SimCListWhole.ValidIsRepresented | src/simclist.c:1683-1713 | every list that the operations leave behind passes the check |
| SimCListWhole.WalkMeetsNoneTwice | src/simclist.c:1701-1708 | a walk that finds each step linked both ways cannot go in circles, for chains of any length |
| SimCListWhole.Concat | src/simclist.c:856-919 | into an empty list: the concatenation, middle in place, sources unchanged; -1 when the target is a source |
| SimCListWhole.MidForConcat | src/simclist.c:900-908 | half the difference of the lengths, with C's division, moves the middle home for all lengths |
| SimCListSort.Select | src/simclist.c:965-967 | the first-ranking element of the rest |
| SimCListSort.SelectionSort | src/simclist.c:955-974 | the stretch is permuted into order, the rest of the list is untouched |
| SimCListSort.Meet | src/simclist.c:1012-1030 | when the scans meet, one side is complete and the other partitioned so far, and the pivot has not moved |
| SimCListSort.GatherLeft | src/simclist.c:1033-1048 | migrating the pivot to the left completes the partition and keeps pivotid in step |
| SimCListSort.GatherRight | src/simclist.c:1049-1065 | migrating it to the right does |
| SimCListSort.Partition | src/simclist.c:1001-1065 | for every pivot: a permutation with smaller elements left of the pivot and bigger ones right of it |
| SimCListSort.Quicksort | src/simclist.c:976-1102 | the stretch is permuted into order whatever the random pivots; the recursion ends |
| SimCListSort.Sort | src/simclist.c:921-937 | the data is a permutation of the old with comparator(el_i, el_j) * -versus <= 0 for i < j; links, length and middle unchanged; -1 while iterating or without a comparator |
| SimCListSort.BeforeMeans | src/simclist.c:1017-1019 | the order by which lists are sorted: comparator(a, b) * -versus <= 0 |
| SimCListSort.ByNumberAscends | src/simclist.c:1616-1620 | with a comparator for numbers, versus 1 means ascending and -1 descending |
| SimCListSort.PartedSorted | src/simclist.c:1099-1100 | two sorted parts around a pivot make a sorted whole |
| SimCListSort.BeforeTransitive | src/simclist.c:1017-1019 | the order by comparator and versus is transitive for every total preorder and every versus |
| SimCListSort.CarriedShuffles | src/simclist.c:1036-1039 | the three assignments that move the pivot lose no element, also when two of the places coincide |
| KJsonParser.ParseText | src/include/cJSON/cJSON.c:980-1063 | the imperative parser accepts what the grammar accepts, with the same tree and end; `KJsonAccepts.ParsesExactly` says what that is |
| KJsonParser.ParseBuffer.ParseString | src/include/cJSON/cJSON.c:678-804 | two passes over a string compute the grammar's string and leave the offset behind the quote |
| KJsonParser.ParseBuffer.ParseNumber | src/include/cJSON/cJSON.c:250-324 | refines the grammar's number; `KJsonNumbers.StrtodReads` and `KJsonAccepts.ParsesExactly` say which numerals those are and which exact real and int they give |
| KJsonParser.ParseBuffer.ParseValue | src/include/cJSON/cJSON.c:1192-1244 | refines the grammar's value; depth is restored on success |
| KJsonParser.ParseBuffer.ParseArray | src/include/cJSON/cJSON.c:1321-1412 | the loop over elements refines the grammar's array |
| KJsonParser.ParseBuffer.ParseObject | src/include/cJSON/cJSON.c:1477-1583 | the loop over members refines the grammar's object |
| KJsonAccepts.ParsesExactly | src/include/cJSON/cJSON.c:980-1063 | a text is accepted to its end, as a tree, exactly if it spells that tree by the grammar of KJsonSpelling and the tree is nested at most 1000 deep |
| KJsonAccepts.ParsesFront | src/include/cJSON/cJSON.c:980-1063 | without the demand for a terminator, the value returned is the one that the front of the text spells |
| KJsonAccepts.RfcTextsAreParsed | src/include/cJSON/cJSON.c:980-1063 | every JSON text of RFC 8259 is accepted, as the tree that it spells |
| KJsonAccepts.SpelledOnce | src/include/cJSON/cJSON.c:1192-1583 | a text spells one tree at most |
| KJsonAccepts.ReadsStrings | src/include/cJSON/cJSON.c:678-804 | a string is read exactly if it is one: raw bytes, the eight short escapes, `\u` units and surrogate pairs, up to the first quote that is not escaped |
| KJsonNumbers.StrtodReads | src/include/cJSON/cJSON.c:250-324 | for every numeral of sign, digits, point, digits, exponent mark, sign and digits: all of it is used, and the value is its digits over ten to the length of the fraction, times ten to the exponent |
| KJsonNumbers.StrtodIsNumeral | src/include/cJSON/cJSON.c:250-324 | and whatever is used of any text is such a numeral, with that value |
| KJsonSpelling.RfcSpells | src/include/cJSON/cJSON.c:1192-1583 | what RFC 8259 allows is allowed here |
| KJsonUnicode.EscapedScalarIsRead | src/include/cJSON/cJSON.c:557-675 | every Unicode scalar value escaped as one unit or a surrogate pair is read as its UTF-8 form |
| KJsonUnicode.OnlyScalarsAreWritten | src/include/cJSON/cJSON.c:557-675 | whatever the escape, only well-formed UTF-8 is written, so lone surrogates are refused |
| KJsonUnicode.Utf8IsWellFormed | src/include/cJSON/cJSON.c:617-664 | the bytes written for a code point decode to it by RFC 3629, in the shortest form |
| KJsonRoundTrip.ParseUndoesPrint | src/include/cJSON/cJSON.c:678-926 | the printed text of a tree, formatted or not, parses to the tree with its numbers rounded to millionths and is consumed to its last byte, exactly when it is nested at most 1000 deep |
| KJsonRoundTrip.ValueRoundTrip | src/include/cJSON/cJSON.c:1192-1697 | the same wherever the text stands and at any depth |
| KJsonRoundTrip.StringRoundTrip | src/include/cJSON/cJSON.c:678-926 | quoting and escaping is undone for every string without NUL, control characters included |
| KJsonRoundTrip.StrtodOfNumber | src/include/cJSON/cJSON.c:458-517 | the text of a number is read to its end, an integer as it is and any other number to the nearest millionth, ties to the even one |
| KJsonRoundTrip.RoundedIsSame | src/include/cJSON/cJSON.c:458-517 | a tree comes back unchanged exactly if its numbers have at most six decimals and their ints are the derived ones |
| KJsonRoundTrip.ReprintIsStable | src/include/cJSON/cJSON.c:1132-1140 | for trees of such numbers, printing, parsing and printing again gives the unformatted text |
| KJsonPrinted.PrintedIsJson | src/include/cJSON/cJSON.c:1247-1697 | printed text, in either layout, spells the rounded tree by RFC 8259 |
| KJsonPrinted.NumberTextIsOnly | src/include/cJSON/cJSON.c:458-517 | a number is printed as just one text: an integer as a minus sign for negative ones and its digits without needless zero, any other number as that with a point and six digits, the nearest millionth |
| KJsonPrinted.PrintableIff | src/include/cJSON/cJSON.c:458-517 | which numbers are too long to be printed |
| KJsonPrinted.StringTextIsOnly | src/include/cJSON/cJSON.c:807-926 | a string is printed as just one text: between quotes, each byte in its shortest way by RFC 8259, in lower case where it is hexadecimal |
| KJsonPrinted.EscapeIsShortest | src/include/cJSON/cJSON.c:870-917 | that shortest way is unique for each byte |
| KJsonPrinted.ArrayLayout | src/include/cJSON/cJSON.c:1415-1474 | elements are joined by ", ", or by "," without formatting |
| KJsonPrinted.ObjectLayout | src/include/cJSON/cJSON.c:1586-1697 | formatted members stand on lines of their own, behind as many tabs as they are deep and with a tab behind the colon, and the closing brace behind the tabs of the object; without formatting they are joined by "," |
| KJsonPrinter.PrintBuffer.Ensure | src/include/cJSON/cJSON.c:357-442 | room is made, the bytes written so far and their terminator survive the growth, and it fails exactly at the capacity |
| KJsonPrinter.PrintBuffer.UpdateOffset | src/include/cJSON/cJSON.c:445-455 | the deferred offset comes to the end of the pending text |
| KJsonPrinter.PrintBuffer.PrintValue | src/include/cJSON/cJSON.c:1247-1318 | final bytes and pending tail spell exactly the text so far; success exactly when it fits |
| KJsonPrinter.PrintBuffer.PrintString | src/include/cJSON/cJSON.c:807-926 | the escaped length is counted right and the escapes written |
| KJsonPrinter.PrintBuffer.PrintNumber | src/include/cJSON/cJSON.c:458-517 | integers are written with all their digits, other numbers with six decimals; refused exactly if that is more than 25 bytes or does not fit |
| KJsonPrinter.PrintBuffer.PrintArray | src/include/cJSON/cJSON.c:1415-1474 | the loop over elements spells the text of the array |
| KJsonPrinter.PrintBuffer.PrintObject | src/include/cJSON/cJSON.c:1586-1697 | the loop over members spells the text of the object in either layout |
| KJsonPrinter.Print | src/include/cJSON/cJSON.c:1067-1140 | the whole text with its terminator, or nothing exactly when the tree cannot be printed or its text is too long for an int |
| KJsonPrinter.PrintBuffered | src/include/cJSON/cJSON.c:1142-1170 | the same from any start size |
| KJsonPrinter.PrintPreallocated | src/include/cJSON/cJSON.c:1172-1189 | never writes outside the caller's buffer and succeeds exactly when the tree can be printed and its text, terminator and one more byte fit |
| KJsonMinify.Minify | src/include/cJSON/cJSON.c:2607-2675 | in place, the write cursor never passing the read cursor, the buffer comes to hold the minified text and nothing behind it changes |
| KJsonMinify.MinifyUndoesLayout | src/include/cJSON/cJSON.c:2607-2675 | minifying printed text, formatted or not, gives the unformatted text byte for byte |
| KJsonMinify.ValueMinified | src/include/cJSON/cJSON.c:2607-2675 | the same for a value inside any text |
| KJsonPieces.MinifiedByPieces | src/include/cJSON/cJSON.c:2607-2675 | for every text: minifying keeps string literals and the bytes that are not blank, drops blanks and both kinds of comments, and fails exactly if the text cannot be cut into such pieces |
| KJsonSortList.SortList | src/include/cJSON/cJSON_Utils.c:460-568 | the linked merge sort refines the sort on values, on the same nodes, and touches nothing but next and prev; the node that comes first keeps its prev pointer |
| KJsonSortList.Middle | src/include/cJSON/cJSON_Utils.c:486-496 | the two-speed walk cuts the list in the middle |
| KJsonSortList.MergeLists | src/include/cJSON/cJSON_Utils.c:509-565 | the relinking loop refines merging |
| KJsonSortList.DetachFirst | src/include/cJSON/cJSON_Utils.c:373-403 | detaching the first node leaves the rest of the list exactly if its prev pointer does not lead into the rest; if it does, the list is closed to a circle |
| KJsonSortList.SortThenDetachFirst | src/include/cJSON/cJSON_Utils.c:570-577 | after sorting a properly linked list, detaching the first node is right exactly if the sort left the first node in place |
| KJsonDiff.SortSorts | src/include/cJSON/cJSON_Utils.c:460-568 | no entry is lost or doubled for any names; without regard to case the result is ordered |
| KJsonDiff.AgreeingNamesAreSorted | src/include/cJSON/cJSON_Utils.c:460-568 | the case-sensitive sort puts every list of names on which the two orders agree into strcmp order |
| KJsonDiff.TwoNamesSorted | src/include/cJSON/cJSON_Utils.c:513-513 | two names come out in strcmp order exactly if they were in that order or are not in order without regard to case, so disagreement of the two orders is what breaks the sort |
| KJsonDiff.TwoNamesSortedEitherWay | src/include/cJSON/cJSON_Utils.c:513-513 | two names come out in strcmp order whichever stands first exactly if the two orders do not contradict each other |
| KJsonDiff.CaseSensitiveSortIsNotByCase | src/include/cJSON/cJSON_Utils.c:513-513 | three names that the case-sensitive sort leaves out of strcmp order |
| KJsonDiff.SortMeaning | src/include/cJSON/cJSON_Utils.c:570-577 | sorting members keeps what an object means; without regard to case they ascend strictly |
| KJsonStrings.LessTransitive | src/include/cJSON/cJSON_Utils.c:73-100 | both comparisons order all names without NUL |
| KJsonStrings.ComparesBytes | src/include/cJSON/cJSON_Utils.c:73-100 | with regard to case the comparison is that of the bytes at the first difference, as strcmp does |
| KJsonStrings.ComparesSmall | src/include/cJSON/cJSON_Utils.c:73-100 | without, that of the texts in lower case |
| KJsonMeaning.GetFollows | src/include/cJSON/cJSON_Utils.c:281-326 | a pointer finds what its tokens denote |
| KJsonMeaning.SetFollows | src/include/cJSON/cJSON_Utils.c:281-326 | changing the item that a pointer finds changes the tree at the tokens and nowhere else |
| KJsonMeaning.DecodesIndex | src/include/cJSON/cJSON_Utils.c:254-279 | a printed index is decoded to itself |
| KJsonPointers.TokenMeets | src/include/cJSON/cJSON_Utils.c:102-132 | a token meets exactly the names that it denotes by RFC 6901, `~0` for `~` and `~1` for `/`; with any other escape none |
| KJsonPointers.TokenFinds | src/include/cJSON/cJSON_Utils.c:281-326 | going into an object by a token finds what looking up the denoted name does |
| KJsonPointers.NoTokenFinds | src/include/cJSON/cJSON_Utils.c:281-326 | a token that is none by RFC 6901 finds nothing |
| KJsonPointers.DecodesTo | src/include/cJSON/cJSON_Utils.c:339-370 | what in-place decoding makes of the token of any name |
| KJsonPointers.LastNameIff | src/include/cJSON/cJSON_Utils.c:339-370 | so the last name is decoded right exactly if it has no `/`, and wherever it has no `~` the token has the same byte in the same place |
| KJsonPointers.BadEscapeStops | src/include/cJSON/cJSON_Utils.c:339-370 | any other escape ends the decoding and the rest stays |
| KJsonPointers.IndexRead | src/include/cJSON/cJSON_Utils.c:254-279 | the index that a token is read as, for all tokens |
| KJsonPointers.ReadingIsFold | src/include/cJSON/cJSON_Utils.c:254-279 | of digits that is the number they denote |
| KJsonPointers.LetterInIndex | src/include/cJSON/cJSON_Utils.c:254-279 | `1a` is 59 |
| KJsonEffects.RemoveKey | src/include/cJSON/cJSON_Utils.c:406-457 | "remove" at a member removes it and nothing else |
| KJsonEffects.InsertKey | src/include/cJSON/cJSON_Utils.c:782-1009 | "add" at a member that is there or not, with no other member of the same name but for case, sets it and nothing else |
| KJsonEffects.ReplaceKey | src/include/cJSON/cJSON_Utils.c:782-1009 | "replace" at a member changes its value and nothing else |
| KJsonEffects.RemoveIndex | src/include/cJSON/cJSON_Utils.c:373-457 | "remove" at an element closes the gap |
| KJsonEffects.ReplaceIndex | src/include/cJSON/cJSON_Utils.c:668-703 | "replace" at an element puts the value at the same index |
| KJsonEffects.AppendElement | src/include/cJSON/cJSON_Utils.c:782-1009 | "add" at "-" appends |
| KJsonEffects.ReplaceRoot | src/include/cJSON/cJSON_Utils.c:813-860 | "replace" of the root gives the value |
| KJsonOperations.CopyCopies | src/include/cJSON/cJSON_Utils.c:869-998 | "copy", for members and elements as source and target: the whole value at `from` is added at the path as RFC 6902 says, and stays where it was |
| KJsonOperations.MoveMoves | src/include/cJSON/cJSON_Utils.c:869-998 | "move": the value is taken out and then added at the path |
| KJsonOperations.RemoveRemoves | src/include/cJSON/cJSON_Utils.c:841-857 | "remove" of any place |
| KJsonOperations.AddAdds | src/include/cJSON/cJSON_Utils.c:907-998 | "add" at any place that admits it |
| KJsonOperations.ReplaceReplaces | src/include/cJSON/cJSON_Utils.c:841-998 | "replace" of any place but the root |
| KJsonOperations.RootIsReplaced | src/include/cJSON/cJSON_Utils.c:813-840 | "add" and "replace" of the root |
| KJsonOperations.AddedComesLast | src/include/cJSON/cJSON_Utils.c:949-996 | for any members: an added member comes last and the others keep their order |
| KJsonOperations.RemovedLeavesOrder | src/include/cJSON/cJSON_Utils.c:406-457 | a removed member leaves the others in their order; 13 without change if there is none |
| KJsonOperations.PatchesInOrder | src/include/cJSON/cJSON_Utils.c:1011-1067 | an array of patches: each is applied to what the one before left, up to the first that fails, whose status is returned; 1 for what is no array |
| KJsonOperations.NothingToRemove | src/include/cJSON/cJSON_Utils.c:841-857 | "remove" and "replace" of a place that is not there: 13, nothing changes |
| KJsonOperations.NothingToTest | src/include/cJSON/cJSON_Utils.c:806-811 | "test" there: 1, nothing changes |
| KJsonOperations.NothingToTake | src/include/cJSON/cJSON_Utils.c:869-900 | "copy" and "move" from there: 5, nothing changes |
| KJsonOperations.AddFails | src/include/cJSON/cJSON_Utils.c:948-998 | "add" where there is no parent, behind the end or at no index: 9, 10 or 11, nothing changes |
| KJsonOperations.CopyFails | src/include/cJSON/cJSON_Utils.c:948-998 | "copy" to such a place: the same |
| KJsonOperations.MoveFails | src/include/cJSON/cJSON_Utils.c:886-998 | "move" to such a place: the same status, and the value is gone |
| KJsonOperations.NotAPatch | src/include/cJSON/cJSON_Utils.c:782-934 | 2 without a path, 3 for an unknown operation, 7 without a value |
| KJsonOperations.NotAMove | src/include/cJSON/cJSON_Utils.c:869-906 | 4 without `from`, and what becomes of the root |
| KJsonOperations.DetachIgnoresCase | src/include/cJSON/cJSON_Utils.c:430-457 | "remove" takes the first member whose name is the same but for case, in either mode |
| KJsonOperations.CopiedObject | src/include/cJSON/cJSON_Utils.c:886-896 | a copied object keeps its members |
| KJsonDiff.DiffReaches | src/include/cJSON/cJSON_Utils.c:1114-1252 | the patches generated below any place bring that place to its target and leave the rest alone |
| KJsonDiff.DiffThenPatch | src/include/cJSON/cJSON_Utils.c:1114-1252 | applying the generated patches to a duplicate returns 0 and yields the target up to member order, arrays growing or shrinking and roots replaced, names in any case |
| KJsonLocal.DiffIsLocal | src/include/cJSON/cJSON_Utils.c:1114-1252 | every generated patch adds or removes what only one of the trees has in that place, or replaces a value that differs |
| KJsonLocal.GeneratedAreLocal | src/include/cJSON/cJSON_Utils.c:1254-1282 | so no generated patch is about what both trees have alike |
| KJsonDiff.CaseSensitiveWorksIff | src/include/cJSON/cJSON_Utils.c:1114-1252 | patches generated with regard to case reach every target exactly if the source object comes out of the sort in strcmp order |
| KJsonDiff.UnsortedSourceFails | src/include/cJSON/cJSON_Utils.c:1192-1252 | else there is a target of one member that is added before it is removed: status 0, and an empty object |
| KJsonDiff.UnsortedSource | src/include/cJSON/cJSON_Utils.c:513-513 | `a` and `B` are such an object |
| KJsonDiff.AgreeingIsSortable | src/include/cJSON/cJSON_Utils.c:460-568 | trees whose names the two orders agree on sort by case throughout |
| KJsonDiff.ComparedMeaning | src/include/cJSON/cJSON_Utils.c:579-665 | comparing changes the order of members at most |
| KJsonDiff.TestKeepsMeaning | src/include/cJSON/cJSON_Utils.c:806-811 | a "test" of any item returns what compare_json says and leaves the document its meaning |
| KJsonDiff.GeneratesNoTest | src/include/cJSON/cJSON_Utils.c:1114-1252 | no generated patch is a "test" |
| KJsonPatcher.PatchArray.CreatePatches | src/include/cJSON/cJSON_Utils.c:1114-1252 | create_patches on linked nodes: it appends exactly the patches of the function; both trees, whose objects it sorts as it comes to them, stay trees of their own nodes, with the values in that order |
| KJsonPatcher.PatchArray.CreateForCommon | src/include/cJSON/cJSON_Utils.c:1150-1163 | the loop over the elements that both arrays have, each sorted below as it is compared |
| KJsonPatcher.PatchArray.CreateForObject | src/include/cJSON/cJSON_Utils.c:1189-1245 | both objects are sorted in place and the walk over their links appends the patches of the function |
| KJsonDiff.VisitedMeaning | src/include/cJSON/cJSON_Utils.c:1114-1252 | generating leaves source and target their meaning |
| KJsonTree.PutWired | src/include/cJSON/cJSON_Utils.c:782-1009 | relinking one branch in place, its place among its neighbours kept, leaves the whole tree of nodes linked without sharing |
| KJsonTree.GetIs | src/include/cJSON/cJSON_Utils.c:281-326 | a pointer finds in the value of the tree what the links lead to |
| KJsonTree.PutIs | src/include/cJSON/cJSON_Utils.c:281-326 | changing the branch that a pointer leads to changes the value of the tree as SetAt says |
| KJsonLinks.GetNode | src/include/cJSON/cJSON_Utils.c:281-326 | the walk along child and next ends at the node that the pointer denotes, or at NULL |
| KJsonLinks.Unlink | src/include/cJSON/cJSON_Utils.c:384-403 | the assignments to next, prev and child take exactly one kid out of its chain and leave it a tree of its own, unless a stray predecessor is in front of it |
| KJsonStray.DetachKeepsTreesIff | src/include/cJSON/cJSON.c:2049-2077 | after detaching a kid anywhere in a tree, what is left and the kid are trees exactly if the next that is overwritten is the right one, of no node of the tree, or of the kid |
| KJsonStray.CircleIsNoTree | src/include/cJSON/cJSON.c:2049-2077 | a node with a circle below it is the top of no tree |
| KJsonLinks.LinkBefore | src/include/cJSON/cJSON_Utils.c:686-702 | the assignments put a node in front of an element, at the beginning or inside, whatever prev the first has |
| KJsonLinks.LinkLast | src/include/cJSON/cJSON.c:1822-1850 | the walk to the end and suffix_object append a node |
| KJsonLinks.InsertAt | src/include/cJSON/cJSON_Utils.c:668-703 | insertion up to right behind the last element, refused without change exactly further on |
| KJsonLinks.Build | src/include/cJSON/cJSON.c:2528-2600 | duplicating makes a tree of new nodes with the value |
| KJsonCompare.SortObject | src/include/cJSON/cJSON_Utils.c:570-577 | sorting the children of a node in place refines the sort on values, below the same nodes, and the new first child keeps the prev it had |
| KJsonCompare.Compare | src/include/cJSON/cJSON_Utils.c:579-665 | compare_json on linked nodes: result and order of members as on values, and the nodes stay a tree |
| KJsonDocument.DetachIs | src/include/cJSON/cJSON_Utils.c:406-457 | taking a kid out of the branch below a path is, on the value, detach_path |
| KJsonDocument.AddIs | src/include/cJSON/cJSON_Utils.c:949-996 | adding to the branch below a path is, on the value, the closing part of apply_patch with its statuses |
| KJsonDocument.Document.TakeOut | src/include/cJSON/cJSON_Utils.c:373-403 | what is left and what is detached are trees exactly if no stray next is overwritten with harm; the heap afterwards in any case |
| KJsonDocument.Document.Detach | src/include/cJSON/cJSON_Utils.c:406-457 | the detached node has the item's value and shares nothing with the tree, which has the remaining value; or nothing changes; or, exactly if the item is the first and has a prev, a stray is overwritten |
| KJsonDocument.Document.Insert | src/include/cJSON/cJSON_Utils.c:948-1000 | the node becomes part of the tree at its path and the value follows, or a status says why not and the tree is as before; or, exactly if the member in its way is the first and has a prev, a stray is overwritten |
| KJsonDocument.Document.Overwrite | src/include/cJSON/cJSON_Utils.c:759-780 | the root takes over contents and children of another node |
| KJsonDocument.Document.MoveTo | src/include/cJSON/cJSON_Utils.c:899-906 | a moved node is relinked, not copied: no node is new, and a value that finds no place is gone |
| KJsonDocument.Document.Test | src/include/cJSON/cJSON_Utils.c:806-811 | "test" sorts what it compares in place: result, new order and links of the tested item |
| KJsonDocument.Document.ApplyPatch | src/include/cJSON/cJSON_Utils.c:782-1009 | for every kind of patch: it comes to overwrite a stray next exactly under a condition on the tree before, never in a tree without strays; else the nodes stay a tree, and status and value are those for which KJsonEffects, TestKeepsMeaning and DiffThenPatch say what the patch does |
| KJsonDocument.Document.ApplyPatches | src/include/cJSON/cJSON_Utils.c:1011-1067 | on linked nodes: stops at the first patch that fails, and what was applied until then stays; patches without a "test" never meet a stray in a tree without strays |
| KJsonDocument.Document.Follow | src/include/cJSON/cJSON_Utils.c:1011-1282 | patches generated between two values bring a linked tree that means the first to one that means the second, with status 0 and no strays |
| KJsonTested.TestThenTakeFirst | src/include/cJSON/cJSON_Utils.c:806-826 | a tested object relieved of its first member stays a tree exactly if the test left the first member in place, by names: if the first name is still first; else its members are a circle |
| KJsonTested.TestedThenBroken | src/include/cJSON/cJSON_Utils.c:806-826 | `b` and `a`, tested against `a` and `b`, without `a`: a circle |
| KJsonMerger.MergeNodes | src/include/cJSON/cJSON_Utils.c:1294-1351 | merge_patch on linked nodes: members are detached, merged and added in place, kept nodes are the target's own, and the value is the function's |
| KJsonMerger.MergeOne | src/include/cJSON/cJSON_Utils.c:1316-1348 | one round: a member is deleted, or its node is merged and put last |
| KJsonEscape.EncodedNameMatches | src/include/cJSON/cJSON_Utils.c:102-177 | inside a path an encoded name leads back to its member exactly when it holds no `~` and memory happened to hold a `~` for each `/` |
| KJsonEscape.AlwaysMatchedIff | src/include/cJSON/cJSON_Utils.c:102-177 | whatever memory held, exactly the names without `~` and `/` are found again |
| KJsonEscape.DecodedNameFound | src/include/cJSON/cJSON_Utils.c:339-370 | as the last name of a path, with no tilde in memory, an encoded name is decoded to one that finds the member exactly when it has no `/` and `~` at most at its end |
| KJsonEscape.AlwaysDecodedIff | src/include/cJSON/cJSON_Utils.c:155-370 | whatever memory held, exactly those names decode to themselves |
| KJsonEscape.DecodedAmongTildes | src/include/cJSON/cJSON_Utils.c:155-370 | with nothing but tildes in memory: exactly the names without special bytes, or with one tilde and then nothing but slashes |
| KJsonEscape.OwnNamePatched | src/include/cJSON/cJSON_Utils.c:782-1252 | for every name and memory, status and tree after the generated add, remove and replace of the member itself |
| KJsonEscape.OwnNameWorksIff | src/include/cJSON/cJSON_Utils.c:782-1252 | with no tilde in memory the three work exactly for the names that decode |
| KJsonEscape.OwnNameAmongTildes | src/include/cJSON/cJSON_Utils.c:782-1252 | with nothing but tildes in memory they work exactly for the names that decode then |
| KJsonEscape.OwnNameAlwaysWorksIff | src/include/cJSON/cJSON_Utils.c:782-1252 | whatever memory holds they work exactly for the names that always decode |
| KJsonEscape.TildeInsideIsCorrupted | src/include/cJSON/cJSON_Utils.c:339-370 | adding `a~b` returns 0 and adds `a~/` |
| KJsonEscape.OwnNameAmongOthers | src/include/cJSON/cJSON_Utils.c:782-1009 | whatever else the object holds: add, remove and replace act on the decoded name, as long as memory did not cut the path |
| KJsonEscape.NeighbourIsOverwritten | src/include/cJSON/cJSON_Utils.c:782-1009 | adding `a~b` overwrites a member `a~/` |
| KJsonEscape.ChangeBelowName | src/include/cJSON/cJSON_Utils.c:102-177 | for every name and memory, a patch below the name is applied exactly when the name leads back to its member, and refused with status 13 otherwise |
| KJsonEscape.ChangeBelowNameIff | src/include/cJSON/cJSON_Utils.c:102-177 | with no tilde in memory that is exactly when the name has no `~` and no `/` |
| KJsonDiff.NoPatchIffEqual | src/include/cJSON/cJSON_Utils.c:1114-1252 | for all trees, names and both modes: no patch is generated exactly when compare_json finds the trees equal |
| KJsonDiff.CaseOnlyChangeIsLost | src/include/cJSON/cJSON_Utils.c:1114-1252 | names that differ in case only: no patch is generated although the objects differ |
| KJsonMergeProof.MergeMeaning | src/include/cJSON/cJSON_Utils.c:1294-1351 | merge_patch computes the function of section 2 of RFC 7396 wherever the comparison tells the names apart |
| KJsonMergeProof.CompareMeaning | src/include/cJSON/cJSON_Utils.c:579-665 | compare_json decides equality up to member order, with regard to case where both trees sort by case |
| KJsonMergeProof.GenerateMeaning | src/include/cJSON/cJSON_Utils.c:1363-1439 | the generated patch is the difference; NULL exactly for equal objects |
| KJsonMergeProof.MergeUndoesGen | src/include/cJSON/cJSON_Utils.c:1294-1439 | merging the difference gives the target exactly when the target is mergeable |
| KJsonMergeProof.GenerateThenMerge | src/include/cJSON/cJSON_Utils.c:1363-1439 | the round trip of generated merge patches, with its exact condition on null members |
| KJsonMergeProof.GeneratedMergeWorksIff | src/include/cJSON/cJSON_Utils.c:1363-1439 | merge patches generated from an object reach every expressible target exactly if the object comes out of the sort in strcmp order |
| KJsonMergeProof.UnsortedMergeFails | src/include/cJSON/cJSON_Utils.c:1363-1439 | else there is a target of one member that the patch sets and then removes |
| KJsonMergeProof.UnsortedForMerging | src/include/cJSON/cJSON_Utils.c:1378-1379 | `a` and `B` are such an object in either mode |
| KJsonMergeProof.AgreeingIsWalkable | src/include/cJSON/cJSON_Utils.c:1363-1439 | trees whose names the two orders agree on qualify in either mode |
| KJsonMergeProof.NullFreeIsMergeable | src/include/cJSON/cJSON_Utils.c:1363-1439 | targets without null members always qualify |
| KsQ.StepKeeps | src/ks_q.c:111-450 | every critical section, timeout and spurious wakeup keeps the invariant |
| KsQ.QueueIsSafe | src/ks_q.c:245-450 | on every run: a sleeping popper means at least len woken ones, a sleeping pusher at least maxlen-len woken ones; popped is the beginning of pushed; len <= maxlen; the counters count |
| KsQ.NobodySleepsAfterTerm | src/ks_q.c:111-135 | once ks_q_term has broadcast nobody is asleep on either condition |
| KsQ.TermIsFinal | src/ks_q.c:121-135 | no later step reopens the queue, moves its items or adds a pending broadcast |
| KsQ.WokenCanGoOn | src/ks_q.c:245-415 | a woken or timed-out thread can always run its second section |
| KsQ.Broadcasts | src/ks_q.c:111-119 | a broadcast turns every sleeper into a woken thread |
| KsQ.PopsAnswer | src/ks_q.c:245-450 | when each pop succeeds, sleeps, breaks off or finds the queue terminated, and that it takes the first item |
| KsQ.PushesAnswer | src/ks_q.c:245-450 | the same of each push, which puts its item last |
| KsQ.CallsSucceed | src/ks_q.c:245-450 | on every run of an active queue, a pop with an item there takes the oldest not yet taken, and a push with room adds its item behind all others |
| KsQ.CallsFail | src/ks_q.c:245-450 | without an item or room they sleep or are turned away, and nothing is taken or put |
| KsQNodes.Queue.NewNode | src/ks_q.c:200-215 | a spare node first, a new one only if there is none |
| KsQNodes.Queue.DoPush | src/ks_q.c:217-242 | refines appending; chains of live and spare nodes stay disjoint and consistent, nodes allocated = peak length |
| KsQNodes.Queue.DoPop | src/ks_q.c:311-343 | refines taking the first |
| KsQNodes.Queue.PushEnter | src/ks_q.c:245-281 | the section up to the wait is the step of the state machine |
| KsQNodes.Queue.PushResume | src/ks_q.c:259-281 | so is the one behind it |
| KsQNodes.Queue.TryPush | src/ks_q.c:283-309 | ks_q_trypush is its step |
| KsQNodes.Queue.PopEnter | src/ks_q.c:367-415 | the section up to the wait is the step |
| KsQNodes.Queue.PopResume | src/ks_q.c:386-415 | so is the one behind it, timeouts included |
| KsQNodes.Queue.TryPop | src/ks_q.c:422-450 | ks_q_trypop is its step |
| KsQNodes.Queue.Term | src/ks_q.c:121-135 | the flag is cleared and the broadcast left to whoever cleared it |
| KwsFrames.WireReadsBack | src/kws.c:1606-1682 | a frame on the wire decodes to itself for every opcode, key and payload length, whatever follows (section 5.2 of RFC 6455) |
| KwsFrames.MaskedTwice | src/kws.c:1537-1543 | masking is undone by masking |
| KwsFrames.BigEndianBack | src/kws.c:1260-1276 | lengths in network order are read back |
| KwsFrames.FragmentsReassemble | src/kws.c:1403-1554 | a text or binary fragment and its continuations give the concatenation (section 5.4 of RFC 6455), with the opcode of the last frame |
| KwsFrames.OneFrameIsAMessage | src/kws.c:1403-1561 | an unfragmented frame is a message of its own, and exactly when it may be read whatever the pieces |
| KwsFrames.PingIsMixedIn | src/kws.c:1331-1573 | a ping or pong between two fragments is not told from them |
| KwsRfc.XorIsXor | src/kws.c:1537-1543 | masking sets each bit exactly if the bits of payload and key differ |
| KwsRfc.ReadsFrames | src/kws.c:1331-1573 | a frame is seen exactly where the bytes are one by section 5.2 of RFC 6455, with payload byte i unmasked by key byte i mod 4 |
| KwsRfc.WritesFrames | src/kws.c:1606-1682 | what is sent is that frame, without reserved bits and with the shortest length |
| Kws.Connection.RawRead | src/kws.c:405-499 | any positive number of the bytes that have arrived, nothing outside the room; -2 only where reading does not wait and nothing is there |
| Kws.Connection.StringReadBlocking | src/kws.c:501-554 | all that was asked for or all there is |
| Kws.Connection.ReadHeader | src/kws.c:1413-1472 | mask and length are fetched in any pieces, nothing is read beyond the header but the first nine bytes |
| Kws.Connection.MakeRoom | src/kws.c:1483-1511 | body, payload and one byte fit, the earlier fragments are kept; refused exactly at the size limit |
| Kws.Connection.ReadPayload | src/kws.c:1474-1543 | the unmasked payload behind the body; fails exactly if the frame is incomplete, was overrun by the first fetch, or is too large |
| Kws.Connection.ReadFrame | src/kws.c:1331-1573 | whatever is returned is the message that the bytes spell; it is returned whenever every frame fills the first fetch or comes alone and the message fits; -2 only without a whole message; the result of every failure |
| Kws.Connection.WriteFrame | src/kws.c:1606-1682 | the bytes sent are the frame or a beginning of it, and what the result then is; a failure is any negative result |
| Kws.Loopback | src/kws.c:1331-1682 | a frame sent whole is received with its opcode and payload under every key and every split into short reads |
| Kws.ReceiveAll | src/kws.c:1331-1573 | a stream of messages, each of any number of frames, is read back one by one and nothing behind them is taken |
| KsHash.CreateIsRight | src/ks_hash.c:179-287 | an empty table of the first size above the one asked for, with the load limit that goes with it, or none exactly above 2^30 |
| KsHash.TablesAreRight | src/ks_hash.c:128-136 | the sizes about double and have no small divisor, and the loads are 65 in 100 of them |
| KsHash.SearchIsRight | src/ks_hash.c:505-535 | search finds the value that the table has under the key |
| KsHash.RemoveIsRight | src/ks_hash.c:370-407 | nothing under equal keys remains, all else does, the value is returned, the count follows |
| KsHash.InsertIsRight | src/ks_hash.c:410-448 | the new value under the key, all else as before, also when the table grows |
| KsHash.InsertWithoutCheck | src/ks_hash.c:410-448 | without the duplicate check older values stay below the new one |
| KsHash.ExpandIsRight | src/ks_hash.c:290-344 | the multiset of entries and every lookup survive the growth, each entry in chain h mod tablelength |
| KsHash.PlacedMeans | src/ks_hash.c:290-344 | placement means that each entry has the hash of its key and stands in chain h mod tablelength |
| KsHash.InsertKeepsShape | src/ks_hash.c:410-448 | placement, entrycount and entrycount <= loadlimit before the last prime, with or without the check |
| KsHashTable.HashTable.constructor | src/ks_hash.c:179-287 | the loop finds the first prime above the size |
| KsHashTable.HashTable.RemoveAt | src/ks_hash.c:370-407 | the walk along the links takes the first match out, as the function does |
| KsHashTable.HashTable.InsertKey | src/ks_hash.c:410-448 | the linked table refines insertion |
| KsHashTable.HashTable.SearchKey | src/ks_hash.c:505-535 | the walk finds what the function finds |
| KsHashTable.HashTable.Grow | src/ks_hash.c:290-344 | moving entry by entry into the new buckets refines the rehash; 0 at the last prime |
| KsHashDrain.Next | src/ks_hash.c:615-645 | the iterator goes to the next entry of the chain or the first of the next used one, and ends behind the last |
| KsHashDrain.Drain | src/ks_thread_pool.c:58-79 | take key, advance, remove: every entry is visited once in table order and the table ends empty |
| KsHashDrain.VisitedOnce | src/ks_thread_pool.c:58-79 | no entry occurs twice in that order |
| KsRwl.StepKeeps | src/ks_mutex.c:839-1047 | every load and store of every thread keeps the invariant |
| KsRwl.WriterIsAlone | src/ks_mutex.c:839-1047 | a thread inside the write lock excludes all writers and readers; write_locker names it and its depth is wlc+1 |
| KsRwl.ReadersExclude | src/ks_mutex.c:839-1047 | a thread that its own calls put inside a read lock excludes all writers, and the lock counts just those |
| KsRwl.ReadersShare | src/ks_mutex.c:839-1047 | two readers can be inside |
| KsRwl.CallsCount | src/ks_mutex.c:839-1047 | a lock that was free is held once more after the call, and once less after an unlock |
| KsRwl.OwnershipTestIsRight | src/ks_mutex.c:881-881 | the unsynchronised test reads the thread's own number exactly if it is inside |
| KsRwl.UnlockedIsReleased | src/ks_mutex.c:1020-1047 | balanced unlocks give the lock back |
| KsRwl.NestingCounts | src/ks_mutex.c:877-884 | a run of n nested write locks ends inside them with wlc (n-1) modulo 2^32 |
| KsRwl.DeepNestingReleasesEarly | src/ks_mutex.c:884-884 | after a run that nests one deeper than 2^32 the first unlock gives the lock away while the thread is still inside |
| KsRwl.ExcludesIffBounded | src/ks_mutex.c:839-1047 | the lock excludes on every run exactly if write locks nest at most 2^32 deep |
| KsThreadPool.CountersAreSound | src/ks_thread_pool.c:81-227 | on every run busy+dying <= running <= thread_count, thread_count = pending + created + running, thread_count-dying <= max(min,max) |
| KsThreadPool.IdleWorkerMayDie | src/ks_thread_pool.c:179-186 | for the worker that makes it, the test means exactly running > min |
| KsThreadPool.NoSpawnWhenDown | src/ks_thread_pool.c:112-121 | after the shutdown no step creates a worker |
| KsThreadPool.CheckQueueAsks | src/ks_thread_pool.c:81-138 | after check_queue thread_count is at least min; above min it takes one more exactly if a job comes, no worker is free for it and max allows it |
| KsThreadPool.PromiseIsKept | src/ks_thread_pool.c:112-121 | then it makes exactly the workers that it has counted |
| KsThreadPool.PoolFills | src/ks_thread_pool.c:81-138 | a new pool comes up with min workers |
| KsThreadPool.CountersEndAtZero | src/ks_thread_pool.c:217-224 | when all workers and calls have ended every counter is zero |
| KsThreadPool.SpawnKeeps | src/ks_thread_pool.c:81-138 | every section of check_queue keeps the invariant |
| KsThreadPool.WorkKeeps | src/ks_thread_pool.c:142-227 | every section of a worker keeps the invariant |
| KsPool.Pool.Alloc | src/ks_pool.c:263-320 | a block of one reference in front, counted |
| KsPool.Pool.Free | src/ks_pool.c:342-395 | one reference less, and the block leaves exactly with the last; the list stays consistent in both directions at either end |
| KsPool.Pool.Ref | src/ks_pool.c:1163-1190 | one reference more |
| KsPool.Pool.Resize | src/ks_pool.c:1216-1276 | the block changes size and may move, its neighbours or the list's ends learn of it; shared blocks are refused |
| KsPool.ExactIffNoNetGrowth | src/ks_pool.c:1216-1276 | user_alloc is the sum of the live sizes exactly if resizes cancelled out modulo 2^64 |
| KsPool.TotalAt | src/ks_pool.c:389-390 | the sum of sizes after one block left or changed |
| KsBuffer.Buffer.WriteBytes | src/ks_buffer.c:241-302 | appends across compaction and growth, every copy inside the allocation, whenever the checkable condition holds |
| KsBuffer.Buffer.MakeRoom | src/ks_buffer.c:253-285 | compaction and growth keep the contents and give the room |
| KsBuffer.WriteIsRightIff | src/ks_buffer.c:253-296 | the layout after a write is right exactly if the limit is kept, there is room behind, or nothing was taken from the front |
| KsBuffer.Buffer.ReadInto | src/ks_buffer.c:161-185 | the first bytes, which leave: as many as asked for, or all if there are fewer |
| KsBuffer.Buffer.TossBytes | src/ks_buffer.c:120-139 | the first bytes leave: as many as asked for, or all if there are fewer; how many are left is returned |
| KsBuffer.Buffer.ZeroAll | src/ks_buffer.c:304-312 | all bytes leave |
| KsBuffer.FirstInFirstOut | src/ks_buffer.c:120-312 | over a whole run, what was there and written comes out in order and the rest is still there |
| KsBuffer.ReadsReturnWrites | src/ks_buffer.c:120-312 | on a run that only writes and reads, what the reads return and what is left is what was there and written, in order |
| KsBuffer.Buffer.PerformAll | src/ks_buffer.c:120-312 | on every run whose writes stay within the limit, the reads return what the queue gives them and the rest is left |

## Left out

- KJsonRoundTrip.ParseUndoesPrint: numbers as `PrintableIff` says, strings without NUL, no Raw nodes; negative zero, NaN and infinity are no reals.
- KJsonAccepts.ParsesExactly: a numeral of more than 63 bytes is not taken as one, as in the code; values are exact reals.
- KJsonOperations.CopyCopies: as for the other operations, names in the paths are without `~` and `/` (`KJsonPointers` says what those lead to), and the document has no two names in one object that are the same but for case.
- KJsonLocal.GeneratedAreLocal: trees as for `DiffThenPatch`, with source and target sorting by the case that is asked for.
- KJsonDiff.DiffThenPatch: names without `~` and `/` (those are `KJsonEscape`'s subject), no two of which in one place of source and target are the same but for case (`CaseOnlyChangeIsLost` says why); for generation with regard to case the source must sort by case, which is exact for each object (`CaseSensitiveWorksIff`).
- KJsonMergeProof.GenerateThenMerge: names without `~` and `/`, as for `DiffThenPatch`; objects below members that only one tree has must sort as well.
- KJsonDocument.Document.ApplyPatch: the patch is a value, whose own objects a test would sort as well; after a stray next has been overwritten the call is not followed further; a `from` that is not a string, which the code would read as one, gives status 5 as a missing one does.
- KJsonDocument.Document.TakeOut: nodes are not freed, so overwriting the next of a node that was deleted is harmless here.
- KJsonPatcher.PatchArray.CreatePatches: the patches themselves are values.
- KJsonMergeProof.GenerateMeaning: generates from values; that it sorts both trees in place is not followed.
- KJsonMerger.MergeNodes: targets without stray predecessors; one that was sorted is `KJsonStray`'s subject.
- KJsonEscape.ChangeBelowName: one member in each object; `OwnNameAmongOthers` is about any.
- KJsonEscape.EncodedNameMatches: what fresh memory holds is a function of the path and the name, so it may differ from patch to patch but not between two encodings of the same.
- KJsonParser.ParseBuffer.ParseNumber: numbers are exact reals; rounding to the nearest double and overflow to infinity are not modelled.
- KJsonPrinter.PrintBuffer.PrintNumber: integers within a long, as the conversion is undefined beyond; what `sprintf` does to memory behind its 26 bytes when the text is longer; NaN, infinity and negative zero.
- KsQ.QueueIsSafe: `poppers` and `pushers` are not taken modulo 2^32.
- Kws.Connection.RawRead: the retry counters; a read that does not wait gives up whenever the environment says so.
- Kws.Connection.ReadFrame: streams below 2^31 bytes, as the body's length passes through an int.
- Kws.ReceiveAll: messages whose frames all fill the first fetch of 9 bytes; a shorter frame must come alone.
- Kws.Connection.WriteFrame: the write buffer is made anew for each frame instead of being kept.
- KsHashTable.HashTable.InsertKey: no free flags or destructors; `entrycount` is not taken modulo 2^32; values are not overwritten through an iterator; the locks of the table.
- KsPool.Pool.Resize: a shared block gives a status; the code then fails an assertion.
- KsBuffer.Buffer.WriteBytes: memory does not run out, and writes outside `MayWrite` are only described by `WriteIsRightIff`.
- SimCListSort.Quicksort: the build that sorts the parts in two threads; products of comparison and `versus` beyond an int.
- SimCList.List.FindPos: the quarter test is an exact comparison; single precision differs only beyond 2^24 elements.
- SimCList.List.InsertAt: element data is not copied (`copy_data`), and the list's lock is not modelled.
- SimCList: dump and restore, deletion through its own iterator, minimum and maximum, hashing.
- Failing memory allocation everywhere, and the cleanup callbacks, clearing and closing of a pool.
- Deadlock freedom of the thread pool's destruction, and a lower bound on its running workers at all times: the code provides neither.
- Seeking and looped reading of buffers.
- Sockets, TLS, the upgrade handshake, HTTP headers and close handshakes.
- Windows branches, debug records, logging, configuration, and the smaller utilities (base64, string builder, ACL, UUID, metrics), which would add easier members.
