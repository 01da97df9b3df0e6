# Verified model of the embedded utility library

The library is a collection of C utilities for small devices. This project models three groups of its code in
Dafny and proves what they promise.

**JSON.** `source/json/cJSON.c` and `source/json/cJSON_Utils.c`: parser, printer, minifier, child lists, merge sort,
two equality algorithms, JSON Pointer (RFC 6901), JSON Patch (RFC 6902) and JSON Merge Patch (RFC 7396). A tree is a
`Json` value; what it means, with member order forgotten, is a `Val` of nested finite maps. Transformations are
specified on values; the loops that compute them are methods proved against the specification, in place on arrays
where the original works in place. Child lists and `sort_list` are modelled on heap nodes with `next`, `prev` and
`child`.

**Queues and schedulers.** `lockfree_ringbuf.c`, `mqueue.c`, `mlooper.c` with `list.h`, and `ringbuf.c`. Protocols are
state machines whose runs are all interleavings; the calls are also methods of classes proved against the steps.

**Ciphers and hashes.** `aes.c` (128-bit keys: ECB core, CBC, CTR), `sha2.c` (SHA-256, SHA-512) and `hmac_sha2.c`
(HMAC-SHA-256), against FIPS 197, SP 800-38A, FIPS 180-2 and RFC 2104.

## Where the code and its documents differ

The model follows the code, and states exactly when the promise holds.

- `decode_pointer_inplace` (source/json/cJSON_Utils.c:359-390) does not move characters down behind an escape;
  `PointerText.DecodeRoundTrip` says for which keys it is right, `PatchLimits.AdditionExact` that generated additions
  work for exactly those.
- `detach_path` (source/json/cJSON_Utils.c:466) always ignores case; `PatchLimits.RemovalExact` says exactly when a
  generated removal takes the right member.
- Together these two decide for which trees generated patches work: `PatchRoundTrip.PatchRoundTrip` asks for what each
  generated path needs, `PatchLimits.PatchesExact` says for which sets of keys all trees are round-tripped.
- `decode_array_index_from_pointer` (source/json/cJSON_Utils.c:285) compares only the first character with `9` and
  accepts the empty token; `Pointer.AcceptedIndex` says which accepted tokens are indices of RFC 6901.
- `sort_list` (source/json/cJSON_Utils.c:484-593) leaves the head's `prev` unrepaired; `SortList.SortObject` says for
  which keys the list keeps its shape, `SortList.AppendAfterSort` what an append then does, in the worst case cutting off
  nodes.
  The patch round trips speak of copies made before sorting.
- `generate_merge_patch` (source/json/cJSON_Utils.c:1416, 1448) sorts by one order and walks by another and recurses
  ignoring case; `MergeGenerate.PromiseExact` says for which sets of keys merging the result works,
  `MergeGenerate.MixedCaseExample` shows a failure.
- `parse_hex4` (source/json/cJSON.c:609-641) gives 0 for characters that are no digits, so that a malformed `\u` escape
  is read as a zero byte: `StringGrammar.ReadIsLiteral`. White space is every byte up to 32, and numbers stop at the
  nearest 32-bit integer: `Grammar.ParserIsGrammar` gives the grammar accepted.
- A `replace` without a value removes the old one before it fails: `PatchLaws.ReplaceWithoutValue`.
- `add_item_to_array` (source/json/cJSON.c:1950-1981) does not clear the item's `next`.
- `minify_string` (source/json/cJSON.c:2806) takes the quote behind an escaped backslash for an escaped quote.
- `sha256_final` and `sha512_final` (source/cipher/sha2.c:401-406, 598-603) write 32 bits of the length; the two
  `PaddingAgrees` say up to which length that is enough.
- `rb_read_chunk` and `rb_write_chunk` (source/cutils/ringbuf.c:269-416) can block each other:
  `BlockingChunks.BlockingExact` says when in runs of all calls, `BlockingChunks.ChunksBlockExact` when in runs of
  chunk calls alone.
- A chunk write that is refused sets the latch without a signal (source/cutils/ringbuf.c:365-407);
  `BlockingWakes.LostWakeUpExact` says for which chunk sizes and thresholds this leaves a reader asleep.
- `rb_done_write` signals no writer and `rb_done_read` no reader (source/cutils/ringbuf.c:437-451);
  `BlockingWakes.WriterLeftAsleep` and `BlockingWakes.ReaderLeftAsleep` say exactly when a thread sleeps on that could
  go on, `LeftByDoneWrite` and `LeftByDoneRead` are such runs.

## Layout

| files | contents |
|---|---|
| Text, Arithmetic, Json, Values, Trees | strings, products and remainders, trees, meanings, paths into values |
| Sorting, ChildList, SortList | the merge sort on sequences; child lists and the sort on the heap |
| Equality | the two comparisons |
| PointerText, Pointer, Locate | JSON Pointer |
| Patch, PatchSteps, PatchRoundTrip, PatchMoves, PatchLimits, PatchLaws, PatchCode | JSON Patch: specification, proofs, exact conditions, RFC 6902 for any patch, code |
| Merge, MergeGenerate | JSON Merge Patch: merging; generating, and its exact condition |
| Print, PrintLayout, Parse, ParsePrint | printer and parser as functions; the look of a print; the round trip |
| PrintCode, ParseCode, StringScan | both as they run |
| StringGrammar, Grammar | the grammar of texts, and that the parser accepts exactly it |
| Minify, MinifyLaws, MinifyPrint | the minifier; what it drops and keeps; its effect on prints |
| RingSteps, LockFreeRing | the lock-free ring in small steps; its calls in one thread |
| BlockingRing, BlockingLaws, BlockingChunks, BlockingWakes, BlockingRingCode | the blocking ring; what its sections do; when its chunk calls block; who is left asleep |
| Mqueue, QueueSets, QueueOrder | queues; the queue-set protocol; the order of selections |
| CircularList, Looper, LooperTimes, LooperCode | list.h; the looper as a protocol; when it dispatches; its calls on the linked list |
| AesField, AesRounds, AesCode, AesKeys, AesModes, AesLaws, AesBuffers | AES, and FIPS 197 and SP 800-38A byte by byte |
| HashBytes, HashRoots, Sha256, Sha256Code, Sha256Laws, Sha512, Sha512Code, Sha512Laws, Hmac | SHA-256, SHA-512, the standard bit by bit, and HMAC |

## Model

| member | source | states |
|---|---|---|
| Text.CompareStrings | source/json/cJSON_Utils.c:83-109 | the loop returns the sign convention of `strcmp` on the keys as they are or in lower case, and 0 exactly when they then agree |
| Text.CompareOrder | source/json/cJSON_Utils.c:83-109 | the key order is antisymmetric and ties are exactly the keys that fold to one string |
| Text.StrCmpTransitive | source/json/cJSON_Utils.c:83-109 | the order is transitive, strictly when one step is strict |
| Text.StrCmpBefore | source/json/cJSON_Utils.c:83-109 | a key comes first exactly when at the first difference it has the smaller byte or has ended |
| Text.LowerLetters | source/json/cJSON_Utils.c:83-109 | folding changes the 26 capital letters, one for one, and nothing else |
| Text.DecimalNumeral | source/json/cJSON_Utils.c:198-259 | a printed index is the decimal numeral of its number, without superfluous zeros |
| Sorting.SortPermutes | source/json/cJSON_Utils.c:484-593 | sorting keeps exactly the members there were, with multiplicity |
| Sorting.SortSorts | source/json/cJSON_Utils.c:484-593 | the result is in non-decreasing key order |
| Sorting.SortStrict | source/json/cJSON_Utils.c:484-593 | distinct keys come out strictly increasing, which is what the early exit tests |
| Sorting.SortFirst | source/json/cJSON_Utils.c:484-593 | the sorted list starts with the last of the members whose key is least: ties are reversed |
| Sorting.SortLast | source/json/cJSON_Utils.c:484-593 | the sorted list ends with the first of the members whose key is greatest |
| Trees.SortKeepsFields | source/json/cJSON_Utils.c:595-602 | sorting members with distinct keys does not change the finite map an object stands for |
| ChildList.Append | source/json/cJSON.c:1922-1981 | on any chain whose head has no `prev` or one within the list: the item is put behind the node the head's `prev` names and what stood behind it is cut off, in full shape exactly when the item is linked to nothing; an empty list takes the item; without a `prev` nothing is added though success is reported; the parent itself is refused |
| ChildList.AppendToShape | source/json/cJSON.c:1922-1981 | on a list in shape the item, linked to nothing, is put at the end and the shape is kept |
| ChildList.Walk | source/json/cJSON.c:1845-1861 | the walk ends at the node of that number or at NULL, with the surplus count left over |
| ChildList.Detach | source/json/cJSON.c:2181-2214 | detaching by pointer removes exactly that node from the sequence, keeps the tail in the head's `prev`, and clears the node's links |
| ChildList.DetachAt | source/json/cJSON_Utils.c:393-427 | detaching by number does the same, or nothing for a number out of range |
| ChildList.InsertBefore | source/json/cJSON_Utils.c:712-725 | the relinking puts a new node right in front of the given one, at the head too, and keeps the shape |
| ChildList.InsertClamped | source/json/cJSON.c:2257-2283 | `cJSON_InsertItemInArray` inserts whatever the item was linked to, appends behind the end an item linked to nothing, and refuses negative places |
| ChildList.InsertAt | source/json/cJSON_Utils.c:693-728 | `insert_item_in_array` likewise inserts up to and including the end and refuses places behind it |
| ChildList.Replace | source/json/cJSON.c:2286-2333 | replacing by pointer puts the new node in the old one's place in every position, single nodes included |
| ChildList.ChainUnique | source/json/cJSON.c:1922-1981 | the heap determines the sequence of children, so the sequence results above are about one list |
| ChildList.PerformOne | source/json/cJSON.c:2181-2333 | one call does to the heap what the sequence operation does, and leaves other known nodes unlinked |
| ChildList.Perform | source/json/cJSON.c:2181-2333 | over any run of calls the shape is kept and the list is the result of the sequence operations |
| SortList.IsSorted | source/json/cJSON_Utils.c:498-507 | the first loop decides whether the list is strictly increasing |
| SortList.Middle | source/json/cJSON_Utils.c:509-521 | the two-pointer walk ends and finds the node that makes both halves non-empty and strictly shorter |
| SortList.Split | source/json/cJSON_Utils.c:522-527 | cutting at that node leaves two null-terminated chains |
| SortList.Extend | source/json/cJSON_Utils.c:547-559 | the smaller node is linked behind the tail with its `prev`, and its own list advances |
| SortList.MergeLists | source/json/cJSON_Utils.c:534-592 | the merge loop and the appended rest give the chain of the functional merge, of exactly the nodes of both lists |
| SortList.SortChain | source/json/cJSON_Utils.c:484-593 | `sort_list` terminates with a null-terminated chain of exactly the original nodes in the order of the functional sort, `prev` right for every node but the head; the head's `prev` is unchanged if it kept its place and NULL otherwise |
| SortList.EndsByKeys | source/json/cJSON_Utils.c:484-593 | the first node keeps its place exactly when its key is less than all others, the last exactly when its key is greater than all others |
| SortList.SortObject | source/json/cJSON_Utils.c:595-602 | the list keeps its full shape exactly when its first key was less and its last key greater than all others; the head's `prev` is the old tail when the first key was, and NULL otherwise |
| SortList.AppendAfterSort | source/json/cJSON_Utils.c:595-602 | adding to an object that has been sorted puts the item at the end exactly when its first key was less and its last key greater than all others; when the first was not, nothing is added; when only the last was not, the item replaces every node behind the old tail |
| Trees.GetObjectItem | source/json/cJSON.c:1874-1904 | lookup finds the first member whose key agrees, in either mode |
| Trees.LookupIsField | source/json/cJSON.c:1874-1904 | what lookup finds is what the finite map holds, and it finds nothing exactly when the map has no such key |
| Equality.DoubleLookupCompare | source/json/cJSON.c:2962-3085 | on trees with unique keys `cJSON_Compare` is equality of nested finite maps, in either case mode |
| Equality.LookupAll | source/json/cJSON.c:3044-3080 | one of its two lookup loops: true exactly when every member has an equal one on the other side |
| Equality.SortWalkCompare | source/json/cJSON_Utils.c:604-690 | on trees with unique keys `compare_json` decides the same equality, so the two algorithms agree; what it leaves behind are reordered trees of the same meaning |
| PointerText.PointerEncodedLength | source/json/cJSON_Utils.c:157-170 | the computed length is that of the encoded text |
| PointerText.EncodeStringAsPointer | source/json/cJSON_Utils.c:173-196 | the loop writes the RFC 6901 escape of every character |
| PointerText.EncodeSubstitutes | source/json/cJSON_Utils.c:173-196 | the escaped form of a key is `~` replaced by `~0` and then `/` by `~1` (section 3 of RFC 6901) |
| PointerText.EncodeHasNoSlash | source/json/cJSON_Utils.c:173-196 | an encoded key contains no separator |
| PointerText.DecodePointerInplace | source/json/cJSON_Utils.c:359-390 | in place: the array ends up with the specified text, never longer than before, and a terminator |
| PointerText.DecodeEncoded | source/json/cJSON_Utils.c:359-390 | character by character, what decoding makes of an encoded key: the right length, but characters behind an escape are not moved down |
| PointerText.DecodeRoundTrip | source/json/cJSON_Utils.c:359-390 | decoding restores a key exactly when it survives: an escaped character may be followed by nothing but the copies the loop leaves there |
| PointerText.DecodeFolded | source/json/cJSON_Utils.c:359-390 | a key comes back ignoring case exactly when it comes back as it was, so in both modes the same keys survive |
| PointerText.DecodeStops | source/json/cJSON_Utils.c:359-390 | a token whose first `~` starts no escape is left as it is |
| PointerText.DecodeExamples | source/json/cJSON_Utils.c:359-390 | keys without `~` and `/` survive; `a~b` does not; `a~` does |
| Pointer.ComparePointers | source/json/cJSON_Utils.c:120-154 | the loop compares a key with the reference token at a position, unescaping as it goes |
| Pointer.MatchesEncoded | source/json/cJSON_Utils.c:120-154 | a key matches the encoding of another exactly when the two fold to the same string |
| Pointer.DecodeArrayIndex | source/json/cJSON_Utils.c:274-299 | the loop refuses a leading zero, a first character above `9` and any character below `0`, and otherwise accumulates the token, whatever its later characters, in the width of `size_t` |
| Pointer.AcceptedIndex | source/json/cJSON_Utils.c:274-299 | every array index of RFC 6901 section 4 is accepted with its value modulo the size of `size_t`; an accepted token is such an index exactly when it is not empty and holds no character above `9` |
| Pointer.LaxIndexExamples | source/json/cJSON_Utils.c:274-299 | the empty token is read as 0 and `1a` as 59 |
| Pointer.DecimalIndex | source/json/cJSON_Utils.c:274-299 | reading a printed index gives it back |
| Pointer.TokensOfJoin | source/json/cJSON_Utils.c:301-346 | splitting a joined pointer gives its tokens back |
| Locate.GetItemFromPointer | source/json/cJSON_Utils.c:301-346 | the walk returns the node the functional lookup names, or fails with it |
| Locate.TokensNamePosition | source/json/cJSON_Utils.c:301-346 | the tokens of a node lead back to its position |
| Locate.FindPointerFromObjectTo | source/json/cJSON_Utils.c:198-259 | the search returns the pointer of the target exactly when it lies in the tree searched |
| Locate.PointerRoundTrip | source/json/cJSON_Utils.c:198-346 | in any tree with unique keys, `~` and `/` included, looking up a node's own pointer returns that node, for keys and indices |
| Locate.PointerSpelled | source/json/cJSON_Utils.c:198-259 | the pointer of a node in characters: for every step `/` and the index, or the key with these two replacements |
| Values.GetPut | source/json/cJSON_Utils.c:807-1034 | what is written at a path is what is read there |
| Values.PutGet | source/json/cJSON_Utils.c:807-1034 | writing back what is at a path changes nothing |
| Values.PutPut | source/json/cJSON_Utils.c:807-1034 | the second of two writes at a path decides |
| PatchSteps.FollowPath | source/json/cJSON_Utils.c:301-346 | a spelled path is followed to the node it names, in either mode and whatever its keys |
| PatchSteps.WithoutKeyMeans | source/json/cJSON_Utils.c:1003-1015 | deleting a member by key removes exactly that field, as the mode sees keys |
| PatchSteps.AloneIndex | source/json/cJSON_Utils.c:466-466 | the lookup of `detach_path`, which ignores case, finds the member meant when no other key of the object agrees with it ignoring case |
| PatchSteps.SetMemberMeans | source/json/cJSON_Utils.c:1003-1015 | replacing a member by delete and append sets exactly that field |
| PatchSteps.RemoveItemMeans | source/json/cJSON_Utils.c:393-427 | removing an item removes exactly that element |
| PatchSteps.InsertItemMeans | source/json/cJSON_Utils.c:693-728 | inserting an item inserts exactly that element |
| PatchRoundTrip.SpellSnoc | source/json/cJSON_Utils.c:1094-1132 | the path a generated patch prints for a child is its parent's path and one encoded token |
| PatchRoundTrip.ReplaceWorks | source/json/cJSON_Utils.c:807-1034 | a generated replace, at the root, at an index or under a key that can be followed, sets the value at its path and nothing else |
| PatchRoundTrip.RemoveMemberWorks | source/json/cJSON_Utils.c:807-1034 | a generated remove of a member deletes that field and nothing else, if its key survives decoding and is alone ignoring case |
| PatchRoundTrip.RemoveItemWorks | source/json/cJSON_Utils.c:807-1034 | a generated remove of an item closes the gap |
| PatchRoundTrip.AddMemberWorks | source/json/cJSON_Utils.c:807-1034 | a generated add of a member sets that field, if its key survives decoding |
| PatchRoundTrip.AddItemWorks | source/json/cJSON_Utils.c:807-1034 | a generated add at `-` appends |
| PatchRoundTrip.ItemsWork | source/json/cJSON_Utils.c:1168-1211 | the patches for two arrays, with their repeated removals at one index and their appends, turn one into the other |
| PatchRoundTrip.MembersWork | source/json/cJSON_Utils.c:1213-1272 | the patches for two sorted member lists do so for objects |
| PatchRoundTrip.PatchRoundTrip | source/json/cJSON_Utils.c:807-1277 | all patches of `create_patches` applied in order to the first tree succeed and give a tree equal, as the mode sees keys, to the second, for all trees whose keys at the end of a generated path can be followed there; nothing is asked of keys inside added values or in the middle of a path |
| PatchLimits.AdditionExact | source/json/cJSON_Utils.c:359-390 | adding a member to any object of any document sets exactly that field exactly for keys that survive decoding |
| PatchLimits.RemovalExact | source/json/cJSON_Utils.c:430-481 | removing a member from any object of any document removes exactly that field exactly if the first key that agrees ignoring case with the decoded pointer is the key meant |
| PatchLimits.PatchesExact | source/json/cJSON_Utils.c:807-1277 | generating and applying round-trips for all trees over a set of keys exactly if all keys survive decoding and, in the case-sensitive mode, no two agree ignoring case |
| PatchCode.PatchList.Compose | source/json/cJSON_Utils.c:1094-1132 | appends one patch object of `op`, `path` and `value` |
| PatchCode.PatchList.CreatePatches | source/json/cJSON_Utils.c:1139-1277 | appends exactly the patches specified |
| PatchCode.PatchList.CreateItemPatches | source/json/cJSON_Utils.c:1168-1211 | its array case, three loops over shared and left-over items |
| PatchCode.PatchList.CreateMemberPatches | source/json/cJSON_Utils.c:1213-1272 | its object case, the walk over both sorted lists |
| PatchCode.Document.DetachNode | source/json/cJSON_Utils.c:430-481 | detaching at a path returns the specified node and removes it, or finds nothing |
| PatchCode.Document.AddNode | source/json/cJSON_Utils.c:959-1021 | adding at a path inserts, appends or replaces, with the statuses 9 to 11 for its failures |
| PatchCode.Document.FetchFrom | source/json/cJSON_Utils.c:906-940 | the value of a move, which is detached, or of a copy, or the status 4 or 5 |
| PatchCode.Document.RunTest | source/json/cJSON_Utils.c:831-836 | a test succeeds exactly when there is a node at the path and it means what the value means; the document is only reordered |
| PatchCode.Document.ApplyOne | source/json/cJSON_Utils.c:807-1034 | one patch of any of the six operations: the new document, or the status and what was already done |
| PatchCode.Document.ApplyPatches | source/json/cJSON_Utils.c:1036-1063 | patches in order up to the first failure, which leaves the earlier ones applied; status 1 for anything but an array |
| PatchMoves.MoveIsRemoveThenAdd | source/json/cJSON_Utils.c:906-1021 | a move is the removal of the node and the addition of the node removed (RFC 6902 section 4.4) |
| PatchMoves.MoveWorks | source/json/cJSON_Utils.c:807-1034 | moving a member removes its field and sets the value under the other key, there or anywhere else, and changes nothing else |
| PatchMoves.CopyWorks | source/json/cJSON_Utils.c:807-1034 | copying a node to a member sets that field to its value and changes nothing else (RFC 6902 section 4.5) |
| PatchLaws.NoPath | source/json/cJSON_Utils.c:817-823 | a patch without a path that is a string fails with status 2 and changes nothing |
| PatchLaws.NoOperation | source/json/cJSON_Utils.c:825-830 | a patch whose `op` is none of the six names fails with status 3 and changes nothing |
| PatchLaws.AtRoot | source/json/cJSON_Utils.c:838-884 | `add` and `replace` with the empty path give the value, whatever the document was |
| PatchLaws.NoValue | source/json/cJSON_Utils.c:851-859 | without a value they fail with status 7 and change nothing |
| PatchLaws.AddsMember | source/json/cJSON_Utils.c:941-1015 | an `add` read from any patch object sets exactly that field (section 4.1 of RFC 6902) |
| PatchLaws.AddsItem | source/json/cJSON_Utils.c:979-1001 | an `add` at index n, up to the length, inserts the value in front of element n |
| PatchLaws.AddsLast | source/json/cJSON_Utils.c:981-985 | an `add` at `-` appends |
| PatchLaws.AddRefused | source/json/cJSON_Utils.c:986-1021 | an index behind the end gives status 10, a token that is none 11, a scalar to add to 9, and the document is unchanged |
| PatchLaws.AddNowhere | source/json/cJSON_Utils.c:961-978 | without a parent to add to, or without a `/`, the status is 9 and the document is unchanged |
| PatchLaws.RemovesMember | source/json/cJSON_Utils.c:887-903 | a `remove` takes exactly that field out (section 4.2) |
| PatchLaws.RemovesItem | source/json/cJSON_Utils.c:887-903 | a `remove` takes exactly that element out and closes the gap |
| PatchLaws.NothingThere | source/json/cJSON_Utils.c:887-895 | removing or replacing what is not there gives status 13 and leaves the document unchanged |
| PatchLaws.Replaces | source/json/cJSON_Utils.c:887-1021 | a `replace` exchanges exactly the value at its path (section 4.3) |
| PatchLaws.ReplaceWithoutValue | source/json/cJSON_Utils.c:887-949 | a `replace` without a value fails with status 7 after it has removed the element |
| PatchLaws.NoSource | source/json/cJSON_Utils.c:906-914 | a `move` or `copy` without `from` gives status 4 |
| PatchLaws.CopyOfNothing | source/json/cJSON_Utils.c:920-929 | a `copy` of what is not there gives status 5 |
| PatchLaws.MoveOfNothing | source/json/cJSON_Utils.c:916-929 | a `move` of what is not there gives status 5 |
| PatchLaws.ItemDetached | source/json/cJSON_Utils.c:430-481 | what a removal or a move takes out of an array is the element at the index |
| PatchLaws.CopyIsAdd | source/json/cJSON_Utils.c:920-1021 | a `copy` is the addition of the value found at `from` (section 4.5) |
| PatchLaws.FirstFailureDecides | source/json/cJSON_Utils.c:1036-1063 | patches are applied one after the other; the first that fails decides status and document, and none behind it is applied |
| Merge.MergePatch | source/json/cJSON_Utils.c:1319-1376 | `merge_patch` leaves the specified tree, which on trees with unique keys means what RFC 7396 section 2 says and has unique keys |
| Merge.MergedMeans | source/json/cJSON_Utils.c:1319-1376 | the specified tree, built member by member in the order of the patch, means the function of RFC 7396 on finite maps |
| Merge.MergeByFields | source/json/cJSON_Utils.c:1319-1376 | field by field what section 2 of RFC 7396 asks: null removes, anything else is merged into the old field, other fields stay |
| Merge.MergeMember | source/json/cJSON_Utils.c:1341-1373 | one round of its loop: delete, or detach, merge and append |
| Merge.MergeIdempotent | source/json/cJSON_Utils.c:1319-1376 | merging the same patch twice changes nothing more |
| Merge.DiffMerges | source/json/cJSON_Utils.c:1388-1464 | merging the difference of two documents into the first gives the second exactly when no member added or changed is null |
| Merge.DiffEmpty | source/json/cJSON_Utils.c:1457-1461 | the difference of two objects is empty exactly when they are equal |
| MergeGenerate.GenerateMergePatch | source/json/cJSON_Utils.c:1388-1464 | on trees without ambiguous keys the loop computes the specified patch |
| MergeGenerate.GeneratesDifference | source/json/cJSON_Utils.c:1388-1464 | over keys that both orders order alike it is the difference, in either mode, and no patch comes back exactly for equal objects |
| MergeGenerate.GeneratedPatchMerges | source/json/cJSON_Utils.c:1388-1464 | over such keys merging the generated patch into the first tree gives the second exactly when no null member has to be put in place |
| MergeGenerate.PromiseExact | source/json/cJSON_Utils.c:1388-1464 | generating and merging reproduces every second tree without null members, for all trees over a set of keys, exactly if the order of the bytes and the order in lower case agree on the set; in either mode |
| MergeGenerate.MixedCaseExample | source/json/cJSON_Utils.c:1416-1448 | from `{"a":1,"B":2}` to `{"B":2}`, ignoring case, the generated patch sets a key and then removes it, and merging it leaves an empty object |
| ParsePrint.PrintThenParse | source/json/cJSON.c:767-1819 | for every tree of nesting at most 1000, formatted or not, terminated or not, parsing the printed text succeeds, consumes exactly that text and rebuilds the tree with order and duplicate keys |
| ParsePrint.IntegerReads | source/json/cJSON.c:301-375 | every printed 32-bit integer is read back |
| ParsePrint.QuotedReads | source/json/cJSON.c:767-893 | every printed string literal is read back, whatever follows it |
| ParsePrint.ArrayReads | source/json/cJSON.c:1435-1530 | every printed array within the nesting limit is read back to its last byte |
| ParsePrint.ObjectReads | source/json/cJSON.c:1595-1705 | every printed object within the nesting limit is read back to its last byte |
| PrintLayout.ShortEscapes | source/json/cJSON.c:896-1015 | the seven short escapes a print uses |
| PrintLayout.OtherEscapes | source/json/cJSON.c:896-1015 | other control characters are `\u00` and two digits; all other characters stand for themselves |
| PrintLayout.ArrayLayout | source/json/cJSON.c:1533-1592 | an array is its items joined by commas, with a space behind each in a formatted print |
| PrintLayout.FormattedLayout | source/json/cJSON.c:1708-1819 | in a formatted object every member has a line, a tab deeper than the closing brace, with a tab behind its colon |
| PrintLayout.PlainLayout | source/json/cJSON.c:1708-1819 | an unformatted object is its members joined by commas, without white space |
| StringGrammar.HexReads | source/json/cJSON.c:609-641 | four hexadecimal digits, letters in either case, are read as their number; anything else as 0 |
| StringGrammar.Utf8Unique | source/json/cJSON.c:707-757 | a code point has one encoding, so the bytes below are determined |
| StringGrammar.EscapeTable | source/json/cJSON.c:832-858 | the eight two-character escapes of section 7 of RFC 8259 and the bytes they stand for |
| StringGrammar.LiteralReads | source/json/cJSON.c:767-893 | every string literal of section 7 of RFC 8259, escapes of code points and surrogate pairs included, is read as the bytes it stands for |
| StringGrammar.ReadIsLiteral | source/json/cJSON.c:767-893 | what is read is such a literal, unless a `\u` in it is not followed by four digits |
| Grammar.NumberExact | source/json/cJSON.c:301-375 | an integer is read exactly where a sign or none and all figures that follow stand, as the nearest 32-bit integer |
| Grammar.ParserIsGrammar | source/json/cJSON.c:1306-1705 | a value is read exactly if its text stands there by the grammar, which is given without the parser, and nests no deeper than the limit |
| Grammar.DocumentExact | source/json/cJSON.c:1089-1166 | a document is accepted exactly if it is an optional byte order mark, white space and such a text |
| Grammar.TerminatedExact | source/json/cJSON.c:1125-1135 | with the terminator required only white space and a last zero byte may follow |
| StringScan.Measure | source/json/cJSON.c:777-806 | the first scan finds the closing quote and counts the bytes escapes save |
| StringScan.DecodedFits | source/json/cJSON.c:767-893 | for every input, malformed `\u` escapes included, what decoding produces fits the size of the first scan |
| StringScan.Utf8RoundTrip | source/json/cJSON.c:707-757 | the bytes written for a code point are its encoding of RFC 3629 section 3: decoding them gives it back |
| StringScan.SurrogatesRoundTrip | source/json/cJSON.c:662-705 | a surrogate pair of RFC 2781 section 2.2 is combined to its code point |
| StringScan.PutUtf8 | source/json/cJSON.c:707-757 | the loop writes that encoding, last byte first, and touches nothing else |
| StringScan.Step | source/json/cJSON.c:823-872 | one round of decoding stays inside the allocation and appends what the specification says |
| StringScan.ParseString | source/json/cJSON.c:767-893 | the string parser over a real output array, every write in bounds |
| ParseCode.ParseBuffer.SkipWhitespace | source/json/cJSON.c:1032-1055 | moves to the first byte above 32, or to the last byte of the buffer |
| ParseCode.ParseBuffer.TakeValue | source/json/cJSON.c:1306-1358 | offset, depth and result agree with the functional parser |
| ParseCode.ParseBuffer.TakeItems | source/json/cJSON.c:1470-1510 | the loop over array items agrees with the functional parser |
| ParseCode.ParseBuffer.TakeMembers | source/json/cJSON.c:1625-1680 | the loop over object members agrees with the functional parser |
| ParseCode.ParseWithLengthOpts | source/json/cJSON.c:1089-1166 | the entry point with byte order mark, empty input and required terminator |
| PrintCode.PrintBuffer.Ensure | source/json/cJSON.c:435-520 | asking for room succeeds exactly when the limit allows it, by any reallocation, and keeps the text |
| PrintCode.PrintBuffer.UpdateOffset | source/json/cJSON.c:523-533 | the offset recovered by `strlen` is the end of the text |
| PrintCode.PrintBuffer.CountEscapes | source/json/cJSON.c:920-946 | the counting loop gives the size of the escaped string and zero only if nothing needs escaping |
| PrintCode.PrintBuffer.PrintString | source/json/cJSON.c:896-1015 | a string is printed in the escaped form, exactly when it and three more bytes fit |
| PrintCode.PrintBuffer.PrintNumber | source/json/cJSON.c:543-606 | an integer is printed exactly when it fits; its text never exceeds the temporary buffer |
| PrintCode.PrintBuffer.PrintValue | source/json/cJSON.c:1361-1432 | through any reallocations the buffer holds exactly the terminated text of the functional printer, and printing succeeds exactly when text and two bytes fit the limit |
| PrintCode.PrintBuffer.PrintArray | source/json/cJSON.c:1533-1592 | the same for arrays: brackets, items and commas, each asking for its own room |
| PrintCode.PrintBuffer.PrintObject | source/json/cJSON.c:1708-1819 | the same for objects: braces, indentation, keys, values and line ends |
| PrintCode.PrintPreallocated | source/json/cJSON.c:1286-1303 | printing into a fixed buffer succeeds exactly when it has two bytes more than the text, so the documented five always suffice |
| PrintCode.PrintAllocated | source/json/cJSON.c:1181-1243 | `print` returns a block of exactly the text and its terminator, or nothing for texts beyond `INT_MAX` - 2 |
| PrintCode.PrintBuffered | source/json/cJSON.c:1256-1283 | the same from any first size, zero included |
| Minify.MinifyInPlace | source/json/cJSON.c:2814-2860 | the array ends up with the specified text; the write cursor never passes the read cursor |
| Minify.MinifyString | source/json/cJSON.c:2792-2812 | the string loop copies up to what it takes for the closing quote |
| Minify.SkipLineComment | source/json/cJSON.c:2765-2776 | ends behind the newline or at the end |
| Minify.SkipBlockComment | source/json/cJSON.c:2778-2790 | ends behind the closing pair or at the end |
| Minify.MinifyIdempotent | source/json/cJSON.c:2814-2860 | minifying any text twice changes nothing more |
| MinifyLaws.WhiteDropped | source/json/cJSON.c:2822-2831 | the four white space characters outside strings are dropped |
| MinifyLaws.LineDropped | source/json/cJSON.c:2765-2776 | a comment from two slashes to the end of its line is dropped |
| MinifyLaws.BlockDropped | source/json/cJSON.c:2778-2790 | a comment from slash and star to the first star and slash is dropped |
| MinifyLaws.OpenCommentDropped | source/json/cJSON.c:2765-2790 | a comment without an end takes the rest of the text with it |
| MinifyLaws.SlashDropped | source/json/cJSON.c:2833-2844 | a slash that starts no comment is dropped |
| MinifyLaws.OtherKept | source/json/cJSON.c:2851-2855 | any other character outside a string is kept |
| MinifyLaws.StringKept | source/json/cJSON.c:2792-2812 | a string is kept as it is, up to the first quote with no backslash in front of it |
| MinifyPrint.StringKept | source/json/cJSON.c:2792-2812 | a printed string is kept whole; the minifier is outside it afterwards exactly when it does not end with a backslash |
| MinifyPrint.MinifiedPrint | source/json/cJSON.c:2792-2860 | minifying the formatted print of a tree gives its unformatted print exactly when no string or key ends with a backslash, but for one string that only closing brackets follow |
| MinifyPrint.MinifyPrinted | source/json/cJSON.c:2814-2860 | minifying a buffer that holds such a formatted print leaves the unformatted print and its terminator in it |
| MinifyPrint.MisjudgedExample | source/json/cJSON.c:2806-2810 | a tree for which it does not |
| RingSteps.StepKeeps | source/cutils/lockfree_ringbuf.c:167-209 | every step of either thread, down to one copied byte, keeps the invariant |
| RingSteps.DeliveredIsPrefix | source/cutils/lockfree_ringbuf.c:167-209 | in every interleaving the bytes read are a prefix of the bytes written, and in-flight plus filled bytes never exceed the size |
| RingSteps.NoOverwrite | source/cutils/lockfree_ringbuf.c:167-209 | no step changes a byte not yet read, and the two threads never touch one slot |
| RingSteps.Quiescent | source/cutils/lockfree_ringbuf.c:167-209 | between calls the buffer holds exactly the bytes written and not read |
| RingSteps.NeverStuck | source/cutils/lockfree_ringbuf.c:167-209 | each thread can always take its next step |
| RingSteps.WriteTakenOn | source/cutils/lockfree_ringbuf.c:167-180 | with no read under way a write is taken on exactly if its data fits beside the unread bytes |
| RingSteps.ReadTakes | source/cutils/lockfree_ringbuf.c:188-200 | with no write under way a read takes as many bytes as it wants and are unread |
| LockFreeRing.RingBuffer.Write | source/cutils/lockfree_ringbuf.c:167-186 | all of the data is appended, or none and an error |
| LockFreeRing.RingBuffer.Read | source/cutils/lockfree_ringbuf.c:188-209 | the oldest bytes are taken, as many as wanted and present |
| LockFreeRing.RingBuffer.Discard | source/cutils/lockfree_ringbuf.c:117-135 | the oldest bytes are dropped |
| LockFreeRing.RingBuffer.Overwrite | source/cutils/lockfree_ringbuf.c:137-165 | what remains are the last bytes of old contents and data together |
| LockFreeRing.RingBuffer.Reset | source/cutils/lockfree_ringbuf.c:108-115 | empties the ring |
| AesField.SboxInverse | source/cipher/aes.c:79-115 | the second table inverts the first |
| AesField.SboxMeaning | source/cipher/aes.c:79-96 | the S-box is the one of FIPS 197 section 5.1.1: multiplicative inverse, then the affine map |
| AesField.MultiplyLinear | source/cipher/aes.c:329-334 | multiplication in GF(2^8) distributes over addition |
| AesField.InvMixMix | source/cipher/aes.c:300-366 | the inverse matrix undoes the mixing of a column |
| AesField.BlendMixes | source/cipher/aes.c:304-312 | the shared-sum form of the code is the matrix product of section 5.1.3 |
| AesRounds.InvShiftShift | source/cipher/aes.c:266-292 | shifting rows back undoes shifting them |
| AesRounds.InvMixMixColumns | source/cipher/aes.c:300-366 | the inverse column mixing undoes the mixing of a whole state |
| AesRounds.InvRoundsMeet | source/cipher/aes.c:413-461 | round by round the inverse cipher passes through the states of the cipher |
| AesRounds.InvCipherUndoes | source/cipher/aes.c:413-461 | for every key schedule and block the inverse cipher undoes the cipher (sections 5.1 and 5.3) |
| AesLaws.ShiftRowsCell | source/cipher/aes.c:266-292 | row r is turned left by r columns |
| AesLaws.MixColumnsCell | source/cipher/aes.c:300-313 | two times a byte, three times the next and the two others of its column |
| AesLaws.XTimeShifts | source/cipher/aes.c:294-297 | multiplication by x shifts and reduces by the polynomial of section 4.2 |
| AesLaws.CipherEnciphers | source/cipher/aes.c:413-436 | byte by byte the cipher goes through a first key addition, nine full rounds and a last one without mixing |
| AesCode.AddRoundKey | source/cipher/aes.c:237-247 | one block of a larger buffer is combined with the round key; the rest is untouched |
| AesCode.SubBytesInPlace | source/cipher/aes.c:251-261 | the row-by-row loop substitutes every byte of the block once; the rest is untouched |
| AesCode.InvSubBytesInPlace | source/cipher/aes.c:371-381 | the same with the inverse table |
| AesCode.ShiftRowsInPlace | source/cipher/aes.c:266-292 | the assignments turn row r of the state left by r columns |
| AesCode.InvShiftRowsInPlace | source/cipher/aes.c:383-409 | the assignments turn row r of the state right by r columns |
| AesCode.MixColumnsInPlace | source/cipher/aes.c:300-313 | every column becomes its product with the matrix of section 5.1.3, computed by shared sums |
| AesCode.InvMixColumnsInPlace | source/cipher/aes.c:350-366 | every column becomes its product with the matrix of section 5.3.3 |
| AesCode.CipherInPlace | source/cipher/aes.c:413-436 | the loop over the rounds computes the cipher of section 5.1 and changes nothing else |
| AesCode.InvCipherInPlace | source/cipher/aes.c:439-461 | the loop counting down computes the inverse cipher of section 5.3 and changes nothing else |
| AesKeys.RconTable | source/cipher/aes.c:120-121 | the round constants are the powers of x |
| AesKeys.KeyExpansion | source/cipher/aes.c:146-217 | the array starts with the key, and every later byte is the sum section 5.2 asks for, of bytes before it in the array |
| AesKeys.ScheduleExpands | source/cipher/aes.c:146-217 | the word recursion of section 5.2 is that byte recursion |
| AesKeys.ExpansionExample | source/cipher/aes.c:146-217 | the first computed word for the key of appendix A.1 of FIPS 197 |
| AesModes.CbcRoundTrip | source/cipher/aes.c:501-529 | CBC decryption undoes encryption for any number of blocks, and both leave the same IV (SP 800-38A section 6.2) |
| AesLaws.CbcBlocks | source/cipher/aes.c:501-514 | every block is combined with the ciphertext block before it, the first with the IV, and enciphered |
| AesLaws.UncbcBlocks | source/cipher/aes.c:516-529 | every ciphertext block is deciphered and combined with the one before it |
| AesModes.CbcChunks | source/cipher/aes.c:501-514 | consecutive calls do what one call does on both buffers |
| AesModes.CounterValue | source/cipher/aes.c:552-563 | n steps of the counter add n modulo 2^128 |
| AesModes.CtrInvolution | source/cipher/aes.c:538-569 | CTR applied twice from one IV is the identity and advances the IV by the number of blocks (section 6.5) |
| AesLaws.CtrBytes | source/cipher/aes.c:538-569 | byte i is combined with byte i % 16 of the enciphered block whose number is the IV plus i / 16 modulo 2^128 |
| AesModes.CtrChunks | source/cipher/aes.c:538-569 | whole blocks may be handed over in several calls |
| AesBuffers.Context.constructor | source/cipher/aes.c:224-228 | key schedule and IV of a fresh context |
| AesBuffers.Context.CbcEncrypt | source/cipher/aes.c:501-514 | the buffer, up to the length rounded up to whole blocks, is the CBC encryption of what it was, and the stored IV its last ciphertext block |
| AesBuffers.Context.CbcDecrypt | source/cipher/aes.c:516-529 | likewise the CBC decryption, and the stored IV the last block of the ciphertext |
| AesBuffers.Context.IncrementIv | source/cipher/aes.c:553-563 | the carry loop is one step of the counter |
| AesBuffers.Context.CtrXcrypt | source/cipher/aes.c:538-569 | for any length the buffer is combined with the key stream and the IV stepped once per block begun |
| Mqueue.MQueue.CopyMsg | source/cutils/mqueue.c:143-150 | appends to the ring |
| Mqueue.MQueue.SendNow | source/cutils/mqueue.c:165-194 | the message enters the queue together with the handle entering its set, or neither does |
| Mqueue.SendExact | source/cutils/mqueue.c:152-194 | a send succeeds exactly if the queue and its set have room; otherwise neither changes |
| Mqueue.MQueue.ReceiveNow | source/cutils/mqueue.c:209-223 | takes the oldest item |
| Mqueue.MQueue.Reset | source/cutils/mqueue.c:124-141 | empties the queue, but refuses a non-empty member of a set |
| Mqueue.MQueue.AddTo | source/cutils/mqueue.c:265-293 | only empty queues that are no sets and have no set can join |
| Mqueue.MQueue.RemoveFrom | source/cutils/mqueue.c:295-319 | only empty members can leave |
| QueueSets.StepKeeps | source/cutils/mqueue.c:103-326 | every permitted call by any thread keeps the invariant |
| QueueSets.Conservation | source/cutils/mqueue.c:152-326 | in every reachable state a member's filled slots are its tokens in the set plus those selected and not yet used; messages leave in the order they came |
| QueueSets.SelectedReceives | source/cutils/mqueue.c:196-224 | after a selection a zero-timeout receive succeeds with the oldest undelivered message |
| QueueSets.SelectFinds | source/cutils/mqueue.c:321-326 | a selection from a set with tokens names a member that has a message |
| QueueOrder.SelectionsInOrder | source/cutils/mqueue.c:152-326 | over every run the members selected from a set are the first of those sent to, in that order; the rest are its waiting tokens |
| QueueSets.EnoughRoom | source/cutils/mqueue.c:152-194 | with a set at least as large as its members together a send fails exactly when its own queue is full |
| QueueSets.LiveSend | source/cutils/mqueue.c:152-194 | the caller's duties for sending reduce to a live queue |
| CircularList.AddAfter | include/cutils/list.h:77-99 | inserts behind a node of the ring; on the head, at the front |
| CircularList.AddBefore | include/cutils/list.h:61-91 | inserts in front of a node; on the head, at the end |
| CircularList.Remove | include/cutils/list.h:93-97 | takes exactly that node out |
| Looper.StepKeeps | source/cutils/mlooper.c:58-419 | every critical section keeps the invariant |
| Looper.PendingOrder | source/cutils/mlooper.c:249-321 | in every run the list is sorted by due time, delayed posts of one time stay in posting order, front posts stand before older ones, and the count is the length |
| Looper.DispatchesDue | source/cutils/mlooper.c:103-134 | only the head is taken, only when due, and nothing pending is due earlier |
| Looper.ExactlyOnce | source/cutils/mlooper.c:58-160 | every posted message is pending, in dispatch or freed exactly once; the discard callback runs exactly for those not handled |
| Looper.RefusedPost | source/cutils/mlooper.c:288-298 | a delayed post is refused exactly when its timeout is not after its delay, and is then freed at once |
| Looper.TimeoutsAreLate | source/cutils/mlooper.c:137-142 | a message times out only when taken after its timeout, which lies after its due time |
| LooperTimes.TakenOnTime | source/cutils/mlooper.c:278-321 | a delayed message is taken exactly when it is at the head and 1000 times its delay has passed since the clock its post sampled |
| LooperTimes.FrontIsHead | source/cutils/mlooper.c:249-276 | a message posted to the front is at the head, due no later than it was posted |
| LooperTimes.DelayedOutcome | source/cutils/mlooper.c:137-158 | taken beyond its timeout a message is timed out, discarded and never handled; otherwise it is handled once if anyone handles it, and never timed out |
| LooperTimes.FrontOutcome | source/cutils/mlooper.c:137-158 | the same for messages posted to the front |
| Looper.RemovalKeepsOthers | source/cutils/mlooper.c:323-419 | the remove family leaves exactly the messages that do not match |
| LooperCode.MessageLooper.LinkAfter | include/cutils/list.h:85-91 | linking a message behind a node of the ring inserts it in the list of messages, all links in shape |
| LooperCode.MessageLooper.Unlink | include/cutils/list.h:93-97 | unlinking takes exactly that message out of the list, all links in shape |
| LooperCode.MessageLooper.InsertByDue | source/cutils/mlooper.c:300-321 | the walk along the `prev` links from the tail ends at the specified place, and the relinking inserts the message there |
| LooperCode.MessageLooper.Post | source/cutils/mlooper.c:278-321 | the call on the linked ring does to the messages it holds what the step of the protocol says, refused posts included |
| LooperCode.MessageLooper.PostAtFront | source/cutils/mlooper.c:249-276 | at the front of the linked ring, with the due time lowered to the front's |
| LooperCode.MessageLooper.RemoveMatching | source/cutils/mlooper.c:330-338 | the loop over the ring that unlinks as it walks: messages left, count and callbacks are those of the specification, all links in shape |
| LooperCode.MessageLooper.ClearList | source/cutils/mlooper.c:74-90 | the clearing loop unlinks and frees every message, with its callbacks |
| LooperCode.MessageLooper.RemoveSelfMessage | source/cutils/mlooper.c:323-341 | removes exactly the messages of one kind posted by the calling thread |
| LooperCode.MessageLooper.RemoveSelfMessageIf | source/cutils/mlooper.c:343-361 | removes exactly those of the calling thread a callback picks |
| LooperCode.MessageLooper.ClearSelfMessage | source/cutils/mlooper.c:363-381 | removes exactly the messages of the calling thread |
| LooperCode.MessageLooper.RemoveMessage | source/cutils/mlooper.c:383-400 | removes exactly the messages of one kind |
| LooperCode.MessageLooper.RemoveMessageIf | source/cutils/mlooper.c:402-419 | removes exactly the messages a callback picks |
| LooperCode.MessageLooper.ClearMessage | source/cutils/mlooper.c:421-425 | leaves no message |
| LooperCode.MessageLooper.TakeFront | source/cutils/mlooper.c:115-131 | the thread's critical section: the head of the ring leaves it when due |
| LooperCode.MessageLooper.DispatchTaken | source/cutils/mlooper.c:136-158 | timeout, handler, default handler or discard, and the release |
| BlockingRing.StepKeeps | source/cutils/ringbuf.c:119-416 | every critical section of the stream and the chunk calls, every wake-up and every setter keeps the invariant |
| BlockingRing.DeliveredIsPrefix | source/cutils/ringbuf.c:119-416 | in any mix of stream and chunk calls the bytes delivered are a prefix of the bytes accepted and the ring holds the rest |
| BlockingRing.NeverBothWait | source/cutils/ringbuf.c:144-236 | the conditions on which `rb_read` and `rb_write` wait never hold together, since a full ring has its latch set |
| BlockingRing.NoDeadlock | source/cutils/ringbuf.c:119-416 | of two waiting threads one has been signalled |
| BlockingRing.WaitsJustified | source/cutils/ringbuf.c:119-416 | a thread that waits unsignalled lacks the bytes or the room it waits for, the reader unless a refused chunk has set the latch; the flags, another reason to go on, are in `BlockingWakes` |
| BlockingRing.StreamsAreNotSilent | source/cutils/ringbuf.c:188-267 | without chunk writes the latch is never set unsignalled |
| BlockingWakes.WriterLeftAsleep | source/cutils/ringbuf.c:188-443 | in every run a writer that waits unsignalled would go on if woken exactly when writing has been declared done |
| BlockingWakes.ReaderLeftAsleep | source/cutils/ringbuf.c:119-451 | in every orderly run (one threshold, one size of chunk writes, writing aborted only after reading, as `rb_abort` does) a reader that waits unsignalled would go on exactly when writing has been declared done: this holds for a ring exactly when its chunk writes fit or its threshold, as bounded by the size, is at most 1 |
| BlockingWakes.LostWakeUpExact | source/cutils/ringbuf.c:119-416 | without any flag, some run leaves a reader waiting unsignalled that could go on exactly when chunk writes are larger than the ring and the threshold, as bounded by the size, is at least 2 |
| BlockingWakes.WouldRead | source/cutils/ringbuf.c:119-338 | such a reader, if woken and asking for anything, takes bytes or returns |
| BlockingWakes.LeftByDoneWrite | source/cutils/ringbuf.c:437-443 | `rb_done_write` leaves a chunk writer asleep that would store bytes, in a run that sets no latch silently |
| BlockingWakes.LeftByDoneRead | source/cutils/ringbuf.c:445-451 | `rb_done_read` leaves a reader asleep that would take bytes, in a run that sets no latch silently |
| BlockingRing.WritingLatches | source/cutils/ringbuf.c:208-256 | a write that fills the ring sets the latch, whatever the threshold |
| BlockingLaws.ReadTakes | source/cutils/ringbuf.c:128-186 | `rb_read` takes the oldest bytes there are once the latch is set; done, abort and forced timeout end it in this order |
| BlockingLaws.WriteStores | source/cutils/ringbuf.c:208-256 | `rb_write` stores what there is room for; the latch is set at the threshold, or by a writer that ends early |
| BlockingLaws.ChunkTaken | source/cutils/ringbuf.c:278-331 | a chunk read takes all of its chunk, or once writing is done what is left, or nothing |
| BlockingLaws.ChunkStored | source/cutils/ringbuf.c:352-406 | a chunk write stores all of its chunk, or once writing is done what fits, or nothing |
| BlockingChunks.BlockingExact | source/cutils/ringbuf.c:269-416 | some run of stream and chunk calls blocks a chunk reader and a chunk writer exactly when the larger of read chunk and threshold plus the write chunk exceed the size by more than one (or a chunk is empty); larger chunks are refused |
| BlockingChunks.ChunksBlockExact | source/cutils/ringbuf.c:269-416 | some run of chunk calls alone blocks them exactly when the write chunks that fit stay below the threshold, or the two chunks exceed the size by more than their greatest common divisor |
| BlockingChunks.StuckForever | source/cutils/ringbuf.c:269-416 | once blocked, the two wake each other for ever: no byte moves and no call ends unless a flag is set or a timeout ends |
| BlockingRing.EmptyRingBlocks | source/cutils/ringbuf.c:54-79 | through a ring of size zero no run moves a byte |
| BlockingRingCode.BlockingBuffer.ReadLoop | source/cutils/ringbuf.c:128-186 | the loop between lock and release computes the specified section |
| BlockingRingCode.BlockingBuffer.WriteLoop | source/cutils/ringbuf.c:208-256 | the same for the writing loop, latch included |
| BlockingRingCode.BlockingBuffer.ReadChunk | source/cutils/ringbuf.c:278-331 | one round of the chunk read is the specified section |
| BlockingRingCode.BlockingBuffer.WriteChunk | source/cutils/ringbuf.c:352-406 | one round of the chunk write is the specified section, latch included |
| BlockingRingCode.BlockingBuffer.SetThreshold | source/cutils/ringbuf.c:479-484 | the threshold afterwards is at most the size and at most what was asked for, and is one of the two |
| Sha256Code.Schedule | source/cipher/sha2.c:229-235 | the first loops compute the message schedule of FIPS 180-2 section 6.2.2 |
| Sha256Code.RunRound | source/cipher/sha2.c:241-253 | the shifting assignments are one round |
| Sha256Code.TransformBlock | source/cipher/sha2.c:225-257 | one block is the compression of section 6.2.2 |
| Sha256Code.Transform | source/cipher/sha2.c:212-325 | any number of blocks |
| Sha256Code.CompressMore | source/cipher/sha2.c:212-325 | hashing blocks after blocks is hashing all of them |
| Sha256Code.Context.Update | source/cipher/sha2.c:354-386 | for any piece the context afterwards stands for the longer message |
| Sha256Code.Context.Final | source/cipher/sha2.c:388-424 | the digest is that of the padded message |
| Sha256Code.PaddingAgrees | source/cipher/sha2.c:398-406 | the padding is that of section 5.1.1 exactly for messages of less than 2^29 bytes |
| Sha256Code.HashPieces | source/cipher/sha2.c:336-424 | for any split of a message of less than 2^29 bytes into updates the digest is that of the whole (FIPS 180-2) |
| Sha256Code.Hash | source/cipher/sha2.c:327-334 | the one-call form |
| Sha256Laws.ChBits | source/cipher/sha2.c:45-45 | `CH` chooses between two bits by the third |
| Sha256Laws.MajBits | source/cipher/sha2.c:46-46 | `MAJ` is the bit most of the three have |
| Sha256Laws.BigSigma0Bits | source/cipher/sha2.c:48-48 | every bit is the sum modulo 2 of the bits at the three places of the standard |
| Sha256Laws.BigSigma1Bits | source/cipher/sha2.c:49-49 | likewise |
| Sha256Laws.SmallSigma0Bits | source/cipher/sha2.c:50-50 | likewise, one of the places shifted |
| Sha256Laws.SmallSigma1Bits | source/cipher/sha2.c:51-51 | likewise |
| Sha256Laws.ConstantIsRoot | source/cipher/sha2.c:150-166 | every round constant is the first 32 bits of the fraction of the cube root of its prime |
| Sha256Laws.InitialIsRoot | source/cipher/sha2.c:134-142 | the first hash value is likewise from square roots |
| Sha256Laws.PackIsNumber | source/cipher/sha2.c:66-72 | a word is read most significant byte first |
| Sha256Laws.CompressIs | source/cipher/sha2.c:225-257 | one block is section 6.2.2, stated as a message recurrence and two recurrences of registers |
| Sha256Laws.DigestIs | source/cipher/sha2.c:327-424 | the digest is the padded message hashed block by block from the first hash value, written most significant byte first |
| Sha512Code.Schedule | source/cipher/sha2.c:441-447 | the first loops compute the 80 words of the message schedule of FIPS 180-2 section 6.3.2 (6.4.2 in FIPS 180-4) |
| Sha512Code.TransformBlock | source/cipher/sha2.c:438-470 | one block of 128 bytes is the compression of that section |
| Sha512Code.Transform | source/cipher/sha2.c:428-521 | any number of blocks |
| Sha512Code.CompressMore | source/cipher/sha2.c:428-521 | hashing blocks after blocks is hashing all of them |
| Sha512Code.Context.Update | source/cipher/sha2.c:551-583 | for any piece the context afterwards stands for the longer message |
| Sha512Code.Context.Final | source/cipher/sha2.c:585-621 | the digest is that of the message with the padding the code writes |
| Sha512Code.PaddingAgrees | source/cipher/sha2.c:595-603 | of the 128-bit length field only 32 bits are written: the padding is that of section 5.1.2 exactly for messages of less than 2^29 bytes |
| Sha512Code.HashPieces | source/cipher/sha2.c:533-621 | for any split of a message of less than 2^29 bytes into updates the digest is that of the whole |
| Sha512Code.Hash | source/cipher/sha2.c:523-531 | the one-call form |
| Sha512Laws.ChBits | source/cipher/sha2.c:45-45 | `CH` chooses between two bits by the third |
| Sha512Laws.MajBits | source/cipher/sha2.c:46-46 | `MAJ` is the bit most of the three have |
| Sha512Laws.BigSigma0Bits | source/cipher/sha2.c:53-53 | every bit is the sum modulo 2 of the bits at the three places of the standard |
| Sha512Laws.BigSigma1Bits | source/cipher/sha2.c:54-54 | likewise |
| Sha512Laws.SmallSigma0Bits | source/cipher/sha2.c:55-55 | likewise, one of the places shifted |
| Sha512Laws.SmallSigma1Bits | source/cipher/sha2.c:56-56 | likewise |
| Sha512Laws.ConstantIsRoot | source/cipher/sha2.c:168-208 | every round constant is the first 64 bits of the fraction of the cube root of its prime |
| Sha512Laws.InitialIsRoot | source/cipher/sha2.c:144-148 | the first hash value is likewise from square roots |
| Sha512Laws.PackIsNumber | source/cipher/sha2.c:86-96 | a word is read most significant byte first |
| Sha512Laws.CompressIs | source/cipher/sha2.c:438-470 | one block is section 6.3.2, stated as a message recurrence and two recurrences of registers |
| Sha512Laws.DigestIs | source/cipher/sha2.c:523-621 | the digest is the padded message hashed block by block from the first hash value, written most significant byte first |
| Hmac.Pad | source/cipher/hmac_sha2.c:136-157 | both pads, for keys shorter than, equal to and longer than a block |
| Hmac.MacIsCode | source/cipher/hmac_sha2.c:126-208 | the code is section 2 of RFC 2104 on the bytes fed to both hashes, with the constants written out |
| Hmac.HmacContext.constructor | source/cipher/hmac_sha2.c:126-171 | after init the context stands for the empty text under the key, and can be restarted |
| Hmac.HmacContext.Reinit | source/cipher/hmac_sha2.c:173-179 | the context is again as after a fresh init with the same key |
| Hmac.HmacContext.Update | source/cipher/hmac_sha2.c:181-185 | the context then stands for the text with the message behind it |
| Hmac.HmacContext.Final | source/cipher/hmac_sha2.c:187-197 | the code is that of RFC 2104 section 2, cut to the wanted size |
| Hmac.MacOfPieces | source/cipher/hmac_sha2.c:126-208 | for any split into updates, and again after reinit, the code is that of the whole text |

## Left out

- Floating point: numbers are 32-bit integers in decimal text; `strtod`, `sprintf`, fractions, exponents and NaN are not modelled. The model's number ends in front of a fraction or an exponent.
- Allocation failure and allocator hooks; allocation always succeeds.
- `cJSON_Raw`, references, constant keys, invalid nodes, NULL arguments, locale, error positions.
- `cJSON_Duplicate` and deletion: trees are values, and detached nodes are simply no longer reachable.
- Patch, merge, pointer and comparison code works on values, not on heap nodes: links shared between two trees are not captured. The shortcut `a == b` of `cJSON_Compare` is therefore not modelled.
- PatchCode.Document.ApplyOne: excludes removing the root, which leaves an invalid node a tree cannot hold, and moving from something that is no string, which the original does not define.
- PatchCode.Document.ApplyPatches: excludes these, and lists with a `test`, since a `test` sorts the objects it compares and a later addition to them can be lost (SortList.AppendAfterSort); the test itself is PatchCode.Document.RunTest.
- A text without terminator that ends right behind a comma inside an object: the original looks at one byte more, the model refuses it.
- MergeGenerate.GenerateMergePatch: says what the patch is for trees without ambiguous keys, and does not model that the comparisons inside `generate_merge_patch` reorder the members of the trees it still walks; only member order is affected.
- ParseCode.ParseBuffer.TakeValue: a number ends in front of a fraction or an exponent.
- ParseCode.ParseWithLengthOpts: likewise, and the reported error position is not modelled.
- PrintCode.PrintBuffer.PrintNumber: prints 32-bit integers only.
- The looper's messages stay with their links in a map (`listnode_to_item`), and a link is made when its message is posted, not when it is obtained.
- Mqueue.MQueue.SendNow: is the critical section that decides; waiting for room is releasing the lock and running it again later. Slots are assigned whole, not byte by byte.
- Mqueue.MQueue.AddTo: leaves the member list to QueueSets, and the check of the parent before the lock is part of the same step.
- Mqueue.MQueue.RemoveFrom: likewise.
- Sha256Code.Context.Update: pieces are shorter than 2^31 bytes, beyond which the offset of a block no longer fits the loop's `int`.
- Sha512Code.Context.Update: likewise.
- SHA-224 and SHA-384, which start from other constants and cut the digest, the HMACs of all but SHA-256, AES-192 and AES-256, unrolled loops.
- What the `rb_*` calls return: the bytes moved, if any, unless the call was aborted or failed, and the code otherwise.
- The ring's `rb_reset` and the order of the two reads of fields outside the lock (`rb_is_full` and others).
- Destruction of queues, sets and loopers; `mqueue_reset` on a set; starting and stopping the looper's thread.
- The non-atomic fallback of the lock-free ring, and its `unsafe` calls made while another thread is active.
- md5.c, base64.c, httpclient.c, memdbg.c, swtimer.c, the osal layer, logging, and threads themselves: easier, or about input and output.
