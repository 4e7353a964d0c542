# A verified model of NemesisDB's storage engines

NemesisDB keeps three kinds of data in memory: fixed-capacity sorted arrays, linked lists, and a
key-value map that can be saved to files and loaded again. This project models the code that stores,
moves, saves and loads that data, and proves what it promises.

- **Sorted arrays.** `ArrArray.SortedArray` is the array with its buffer and its count of live slots.
  Its batch insert is the in-place merge: runs of items are written behind the live prefix, rotated
  into place, and the search resumes behind them. Each method is proved against `Cells`, the exact
  contents of every slot. `ArrHandler.Handler` holds the named arrays. `ArrReference` then shows that
  every run of commands is a run of bounded bags of integers, and `ArrLaws` relates the operations
  to each other.
- **Lists.** `LstList.List` and `LstHandler.Handler` are the lists and the map of named lists, with
  clamped positions, range removal and splicing within or between lists. The type of the nodes is
  open, so what is proved of multisets of nodes holds for node identities as long as nothing is
  overwritten in place, and for values always: a splice copies nothing.
  `LstLaws` has the inverses, and the conservation of nodes over whole runs.
- **Key-value save and load.** `KvExecutor` cuts the map into files at a byte limit and loads files
  in any order. Files are character sequences; `JsonText` reads back object members, names with
  escapes, and the extent of a value. `KvLaws` proves the round trip, that it holds exactly for
  the maps whose keys need no escaping, and what loading makes of files that are cut short or foreign.

`Common`, `Slices`, `SortedSeq` and `StdAlgorithms` are the vocabulary: sorted sequences, and
`lower_bound`, `rotate`, `sort`, `copy` and `set_intersection` with bodies of their own.

## Where the code falls short of what is promised

The model follows the code. For each promise that the code does not keep everywhere, one theorem says
exactly when it is kept, and one names an input for which it is not.

- The batch insert reads one item past its items (core/arr/ArrArray.h:115 and 121, where an item is
  compared before it is known not to be the end). What is read there is modelled as an unknown value;
  the result does not depend on it. It is read exactly when the array is not empty and no item is
  above its largest element: `ArrArray.BatchReadsPastEndExactly`, tied to the loop by the contract of
  `ArrArray.SortedArray.SetRange`. Input: `ArrArray.BatchReadsPastEndForSmallerItem`.
- `docs/docs/client_apis/python/arr/max.md` promises the highest values. The code counts back from
  the end of the buffer, so slots that hold no live item can be answered:
  `ArrLaws.MaxIsRightExactlyWhenFull`. Input: `ArrLaws.MaxReadsUnsetSlots`.
- `min.md` and `max.md` beside it announce an error for an `n` out of bounds, read here as more than
  there are values. The code answers with what there is: `ArrLaws.BoundsErrorIsAsDocumentedExactly`. Input:
  `ArrLaws.MoreThanThereAreIsNoError`.
- `docs/docs/client_apis/python/arr/clear.md` says that `used` decreases by `stop - start`:
  `ArrLaws.ClearCountsRangeExactlyWithinUsed`. Input: `ArrLaws.ClearCountsLess`.
- The response limit (`docs/docs/home/config.md:91`) is kept, but it clamps the end position of a
  window and not its length, so a window may hold fewer items than the limit allows:
  `ArrLaws.LimitCountsItemsExactlyFromStart`, and for reading in pages
  `PagingIsCompleteExactlyWithinLimit` of `ArrLaws` and of `LstLaws`. Input: `ArrLaws.WindowHoldsFewer`.
- `docs/docs/api/kv/kv-load.md` does not list `Loading` as an answer. It is the answer exactly for a
  data set without files, which is what saving an empty map writes: `KvLaws.LoadingMeansNoFiles`.
- Keys are written to files without escapes (core/kv/KvExecutor.h:309):
  `KvLaws.SaveThenLoadRestoresExactlyCleanKeys`. Inputs: `KvLaws.QuotedKeyCollides`.

## Domains

Some preconditions are limits inside which the C++ code is defined; its guards check them only in
part. They are stated once, in `OpSafe` and `Safe` of the two executors and handlers, and the two
`GuardsSufficeExactly` say for which sizes the guards are enough. The read past the items of a batch
is not among them: a run that is safe in this sense may contain it, and `BatchReadsPastEnd` says where.

- a cleared range must not start behind the live prefix or its own end (core/arr/ArrArray.h:201-209);
- a window of an array or a list must not start behind its own clamped end
  (core/arr/ArrArray.h:163-167, core/lst/LstList.h:104-110);
- removing a head or a tail needs a node to remove (core/lst/LstList.h:121-130);
- overwriting a list from a position must not run over its end (core/lst/LstList.h:76);
- a spliced range must not be reversed, nor go into itself (core/lst/LstList.h:160-170).

## Model

| member | source | states |
|---|---|---|
| StdAlgorithms.LowerBound | core/arr/ArrArray.h:77 | the position found splits the range into what is below the item and what is not |
| StdAlgorithms.Rotate | core/arr/ArrArray.h:79 | the two parts of the range change places, everything else stays |
| StdAlgorithms.Sort | core/arr/ArrArray.h:103 | leaves the one sorted sequence that has the multiset of the items |
| StdAlgorithms.SetIntersection | core/arr/ArrExecutor.h:219-221 | the walk over two live prefixes yields the sorted sequence of the pointwise minimum of their multisets |
| SortedSeq.SortedIsUnique | core/arr/ArrArray.h:100-146 | a multiset has one sorted sequence, so the order in which items arrive cannot matter |
| SortedSeq.InsertedIsSorted | core/arr/ArrArray.h:70-83 | inserting at the lower bound keeps a sequence sorted and adds exactly the item |
| SortedSeq.RunFits | core/arr/ArrArray.h:119-130 | a sorted run fits between its neighbours: the result is sorted and has both multisets |
| ArrArray.SortedArray.constructor | core/arr/ArrArray.h:28-31 | a new array has only unset slots and nothing live |
| ArrArray.SortedArray.Set | core/arr/ArrArray.h:70-83 | the live prefix gets the item at its lower bound; no other slot changes |
| ArrArray.SortedArray.MoveRunIn | core/arr/ArrArray.h:119-130 | one pass consumes at least one item, stops at the first that exceeds the element found, puts the run in front of that element, and reads the item at the end if and only if it consumes the last one |
| ArrArray.SortedArray.Merge | core/arr/ArrArray.h:112-139 | the merge loop ends with everything consumed merged in, and the next item, if any, above every live element; it has read past the items if and only if none is left |
| ArrArray.SortedArray.SetRange | core/arr/ArrArray.h:100-146 | for items in any order, or none: the live prefix becomes the sorted sequence of the old multiset plus the items; slots behind it are untouched; whether an item past the last one is read |
| ArrArray.LoopReadsPastEndExactly | core/arr/ArrArray.h:117-139 | the loop comes to read the item at the end if and only if the largest item is not above the largest live element |
| ArrArray.BatchReadsPastEndExactly | core/arr/ArrArray.h:100-146 | a batch insert reads past its items if and only if the array is not empty and no item is above its largest element |
| ArrArray.BatchReadsPastEndForSmallerItem | core/arr/ArrArray.h:121 | one input for which it does, and one for which it does not |
| ArrArray.SortedArray.Clear | core/arr/ArrArray.h:197-211 | every slot after a range clear, in both branches |
| ArrArray.SortedArray.GetRange | core/arr/ArrArray.h:161-180 | answers the live items of the clamped window and no slot behind them |
| ArrArray.SortedArray.Smallest | core/arr/ArrArray.h:232-246 | answers the first live items, as many as there are |
| ArrArray.SortedArray.FromPhysicalEnd | core/arr/ArrArray.h:249-263 | answers the last slots of the buffer in reverse, live or not |
| ArrArray.PassKeepsMerged | core/arr/ArrArray.h:119-137 | a pass keeps the prefix sorted with the right multiset, and leaves nothing before the advanced iterator that the next item could have to precede |
| ArrArray.ResumedSearchIsExact | core/arr/ArrArray.h:132-138 | searching the remaining sub-range finds the lower bound of the whole live prefix |
| ArrArray.RestGoesLast | core/arr/ArrArray.h:141-144 | copying what is left behind the prefix completes the batch |
| ArrArray.BatchIsSorted | core/arr/ArrArray.h:100-146 | a batch that fits keeps the array sorted, adds its items and no others, grows the count by their number and touches no slot behind |
| ArrArray.ClearIsSliceDeletion | core/arr/ArrArray.h:197-211 | a range clear removes exactly that slice of the live prefix, keeps it sorted and permutes the buffer |
| ArrArray.ClearIsRotation | core/arr/ArrArray.h:204-210 | the clear-everything branch and the rotating branch agree |
| ArrExecutor.OpKeepsValid | core/arr/ArrExecutor.h:21-203 | every guarded operation keeps the prefix sorted, within the buffer, and the capacity constant |
| ArrExecutor.Execute | core/arr/ArrExecutor.h:21-203 | each operation's answer and the array after it, for both outcomes of its guard |
| ArrExecutor.Intersect | core/arr/ArrExecutor.h:208-236 | answers the sorted multiset intersection of the two live prefixes |
| ArrHandler.Handler.Handle | core/arr/ArrHandler.h:157-287 | each command's answer and all named arrays after it; the arrays stay separate objects |
| ArrHandler.NextKeepsWellFormed | core/arr/ArrHandler.h:206-233 | every command keeps every named array sorted, with a capacity between 1 and the maximum |
| ArrHandler.HandleAll | core/arr/ArrHandler.h:157-204 | a run of commands on the objects is the run of the specification, answers included |
| ArrReference.OpStateRefines | core/arr/ArrExecutor.h:21-203 | an operation on the array is the same operation on its bounded bag |
| ArrReference.OpReplyRefines | core/arr/ArrExecutor.h:21-317 | the array answers what its bag determines |
| ArrReference.CommandRefines | core/arr/ArrHandler.h:190-336 | one command on the named arrays is the same command on their bags |
| ArrReference.RunRefines | core/arr/ArrHandler.h:157-336 | every run of commands from any state keeps every array sorted and bounded, ends in the reference's bags and is answered as the reference answers |
| ArrReference.RunLeavesOtherNames | core/arr/ArrHandler.h:190-203 | commands on other names never change an array, down to its dead slots |
| ArrReference.RunKeepsCapacity | core/arr/ArrArray.h:28-31 | the capacity of an array that is not deleted is constant over every run |
| ArrReference.RejectedChangesNothing | core/arr/ArrExecutor.h:34-40 | a command that is not answered with Ok leaves everything as it was |
| ArrLaws.BatchEqualsSingles | core/arr/ArrArray.h:70-146 | setting the items one by one in any order gives the same slots as one batch |
| ArrLaws.InsertsAddUp | core/arr/ArrArray.h:70-146 | after any run of accepted single and batch inserts, an array holds what it held and what was requested for it |
| ArrLaws.IntersectOfInserts | core/arr/ArrHandler.h:312-337 | after any such run from any state, intersect answers the sorted multiset intersection of what the two arrays held and what was requested for them |
| ArrLaws.IntersectCommutes | core/arr/ArrHandler.h:312-337 | in every state, intersect answers the same for its arguments in either order, errors included |
| ArrLaws.SmallestAreSmallest | core/arr/ArrArray.h:232-246 | min answers a sorted part of the live items that none of the others is below |
| ArrLaws.LargestAreLargest | core/arr/ArrArray.h:249-263 | the items documented for max: descending, and none of the others is above |
| ArrLaws.MaxAnswersFromTheEnd | core/arr/ArrArray.h:249-263 | what max answers for every array with live items: the slots from the end of the buffer on, first those that are not live, then the largest live items, descending |
| ArrLaws.OtherRunsAreSafe | core/arr/ArrExecutor.h:21-203 | every run without windows and clears keeps all iterators in order |
| ArrLaws.MaxOfNewArrayStartsWithZeros | core/arr/ArrArray.h:28-31 | after nothing but inserts into a new array, accepted or not, max answers the initial zeros of its free slots before any item |
| ArrLaws.MaxReadsUnsetSlots | core/arr/ArrArray.h:252-260 | a reachable array of every size and partial fill for which max answers something else |
| ArrLaws.MaxIsRightExactlyWhenFull | core/arr/ArrArray.h:249-263 | max answers the largest items for all arrays of a size and fill if and only if the array is full or empty or nothing is asked for |
| ArrLaws.MaxOfAllReversesMin | core/arr/ArrArray.h:232-263 | for a full array, max of everything is min of everything reversed |
| ArrLaws.PagesJoinUp | core/arr/ArrArray.h:161-180 | consecutive windows over any cut points concatenate to one window |
| ArrLaws.PagingIsCompleteExactlyWithinLimit | core/arr/ArrArray.h:163 | paging reads the whole live prefix if and only if it is no longer than the response limit |
| ArrLaws.LimitCountsItemsExactlyFromStart | core/arr/ArrArray.h:163 | no window exceeds the limit; it holds all that was asked for up to the limit if and only if it starts at 0 or ends within the limit |
| ArrLaws.WindowHoldsFewer | core/arr/ArrArray.h:163 | a window that holds fewer items than were asked for and allowed |
| ArrLaws.ClearCountsRangeExactlyWithinUsed | core/arr/ArrArray.h:209 | clearing lowers the count by the length of the range, as documented, if and only if the range ends within the live prefix |
| ArrLaws.ClearCountsLess | core/arr/ArrArray.h:209 | a clear that lowers it by less |
| ArrLaws.OperationStatuses | core/arr/ArrHandler.h:190-203 | with which status an operation is answered, exactly: a reversed window, then a missing array, then a full or empty one or a start behind it |
| ArrLaws.WindowIsAnswered | core/arr/ArrExecutor.h:140-157 | an ordered window that starts inside is answered with Ok and just its live slots up to the least of the three limits |
| ArrLaws.ClearIsAnswered | core/arr/ArrExecutor.h:181-205 | a clear takes just its live slots out of the named array, permutes its buffer and leaves the other arrays |
| ArrLaws.BoundsErrorIsAsDocumentedExactly | core/arr/ArrExecutor.h:267-317 | min and max fail as documented, for more values than there are, if and only if the array has n values, or has none and n is not 0 |
| ArrLaws.MoreThanThereAreIsNoError | core/arr/ArrExecutor.h:267-317 | asking one value for two is answered with the one |
| ArrLaws.GuardsSufficeExactly | core/arr/ArrExecutor.h:149-193 | for which sizes and fills the bounds checks of clear and of windows keep the iterators in order, for ranges without an end |
| LstList.List.Add | core/lst/LstList.h:62-70 | the items go to the clamped position, which is reported with the new size |
| LstList.List.SetRange | core/lst/LstList.h:73-87 | overwrites nodes in place, no more than the list or the items have |
| LstList.List.Remove | core/lst/LstList.h:139-150 | erases the clamped range, in both branches |
| LstList.List.Splice | core/lst/LstList.h:160-175 | moves the clamped range in front of the node at the clamped position, between two lists or within one |
| LstList.MoveIsEraseThenInsert | core/lst/LstList.h:160-170 | within one list, the position stays at its node while the range is taken out |
| LstExecutor.Execute | core/lst/LstExecutor.h:23-181 | each operation's answer and the list after it |
| LstExecutor.ExecuteRemove | core/lst/LstExecutor.h:148-181 | head, tail and range are removed in this order, the range from what is left |
| LstHandler.Handler.Handle | core/lst/LstHandler.h:139-340 | each command's answer and all named lists after it; the lists stay separate objects |
| LstHandler.Handler.SpliceLists | core/lst/LstHandler.h:298-340 | creates a missing destination and then moves the nodes, by default to its end |
| LstHandler.HandleAll | core/lst/LstHandler.h:139-166 | a run of commands on the objects is the run of the specification, answers included |
| LstLaws.SpliceIsInvertible | core/lst/LstList.h:160-175 | moving the range back restores both lists |
| LstLaws.SpliceCommandIsInvertible | core/lst/LstHandler.h:298-340 | the same as two commands: the second undoes the first, and no other list is involved |
| LstLaws.SpliceBetweenLists | core/lst/LstHandler.h:298-340 | both lists after every splice between two, element by element: by default at the end, otherwise at the clamped position, in order, with a missing destination created; the other lists stay |
| LstLaws.SpliceWithinList | core/lst/LstHandler.h:298-340 | the list after a splice within it, for every position in front of the range or behind it |
| LstLaws.MoveKeepsBlockAndRest | core/lst/LstList.h:160-175 | within one list the range moves as a block and everything else keeps its order |
| LstLaws.MoveWithinIsInvertible | core/lst/LstList.h:160-175 | moving the block back in front of its old neighbour restores the list |
| LstLaws.SpliceToSelfGoesToEnd | core/lst/LstHandler.h:319-330 | without a position, a list's own clamped range goes to its end |
| LstLaws.SpliceStatuses | core/lst/LstHandler.h:298-314 | answered with NotExist if and only if there is no source; then nothing is created |
| LstLaws.AddedAtPosition | core/lst/LstExecutor.h:23-57 | the items stand in order at the requested position, by default and at the latest at the end; position and new length are answered |
| LstLaws.AddThenRemove | core/lst/LstList.h:62-70 | removing the range that add reports restores the list, for every requested position |
| LstLaws.CombinedRemoveIsInTurn | core/lst/LstExecutor.h:148-181 | one combined remove is the three removals one after the other |
| LstLaws.CombinedRemove | core/lst/LstExecutor.h:148-181 | what it keeps in terms of the original list, and that the answer is how much that is |
| LstLaws.RemoveWithoutRange | core/lst/LstExecutor.h:148-181 | the same for a request without a range |
| LstLaws.OverwritesInPlace | core/lst/LstList.h:73-87 | the length and every element after overwriting: the items from the start position on, the old elements elsewhere |
| LstLaws.OverwriteIsInvertible | core/lst/LstList.h:73-87 | overwriting the same positions with the old values restores the list |
| LstLaws.SpliceConserves | core/lst/LstHandler.h:298-340 | a splice changes nothing about the nodes of all lists together, even when it creates its destination |
| LstLaws.CommandConserves | core/lst/LstHandler.h:139-340 | each command adds what its request brings and drops what it removes, overwrites or deletes |
| LstLaws.BringsOrDrops | core/lst/LstHandler.h:139-340 | only overwriting both brings and drops, and it brings what it writes; so for every other command, conservation says what it brings or drops |
| LstLaws.RunConserves | core/lst/LstHandler.h:139-340 | over every run, the nodes of all lists are those from before plus those brought minus those dropped |
| LstLaws.NodesAreNeverCopied | core/lst/LstList.h:159-170 | after every run from nothing, a node that was brought in once at most is in one place of one list at most |
| LstLaws.RunLeavesOtherLists | core/lst/LstHandler.h:171-340 | commands that neither name a list nor splice from or to it leave it as it is |
| LstLaws.CreateAndDelete | core/lst/LstHandler.h:189-275 | what create and delete leave of the lists, and that they are answered with Ok if and only if they change something |
| LstLaws.OperationStatuses | core/lst/LstHandler.h:171-186 | with which status an operation is refused, exactly, and that it then changes nothing |
| LstLaws.WindowIsAnswered | core/lst/LstExecutor.h:119-145 | an ordered window that starts inside is answered with its elements up to the least of the three limits |
| LstLaws.WindowBehindListIsEmpty | core/lst/LstExecutor.h:131-132 | one that starts behind the list is answered with nothing |
| LstLaws.CommandsRunInTurn | core/lst/LstHandler.h:139-166 | in every run, each command meets what the commands before it left, and is answered for that |
| LstLaws.PagesJoinUp | core/lst/LstExecutor.h:119-145 | consecutive pages of a list, over any cut points, are answered as one page would be |
| LstLaws.PagingIsCompleteExactlyWithinLimit | core/lst/LstList.h:104 | paging reads the whole list if and only if it is no longer than the response limit |
| LstLaws.GuardsSufficeExactly | core/lst/LstExecutor.h:71-141 | for which lists and items the bounds checks of overwriting and of windows keep the iterators inside |
| JsonText.MembersWeigh | core/kv/KvExecutor.h:396-403 | whatever the text, the members read from it take no more room than it has, and as much only with clean names |
| JsonText.ObjectIsClosed | core/kv/KvExecutor.h:396 | what is read as an object closes everything it opens and ends there |
| JsonText.EscapedNameIsRead | core/kv/KvExecutor.h:396-400 | a name written with its escapes is read back, quotes and backslashes included |
| KvExecutor.SaveKv | core/kv/KvExecutor.h:292-326 | the loop cuts the iteration of the map into chunks at the limit and writes one file for each; an existing directory is an error |
| KvExecutor.ReadKvFile | core/kv/KvExecutor.h:388-412 | sets and counts the keys of one file; a malformed file changes nothing |
| KvExecutor.LoadKv | core/kv/KvExecutor.h:337-373 | loads the listed files in order and ends at a malformed one |
| KvExecutor.ClearSet | core/kv/KvExecutor.h:230-263 | clears, answers the old number of keys, and sets the request's |
| KvChunks.DirectoryHoldsChunks | core/kv/KvExecutor.h:313-321 | as many files as chunks, under distinct names, each with its chunk |
| KvChunks.ChunkingIsUnique | core/kv/KvExecutor.h:302-321 | no chunk empty, nothing lost, repeated or reordered, the limit reached with the last entry only: this determines the chunks |
| KvChunks.ChunkExceedsByOneEntry | core/kv/KvExecutor.h:309-312 | a file exceeds the limit by no more than the entry that reached it |
| KvChunks.DecimalIsNumeral | core/kv/KvExecutor.h:313 | a file name is the decimal numeral of its number, without leading zeros |
| KvChunks.FileOfOneEntry | core/kv/KvExecutor.h:309-381 | the directory of one entry, to the letter |
| KvReadBack.BufferStartsWithQuote | core/kv/KvExecutor.h:304-309 | no buffer starts with a comma |
| KvReadBack.FileIsRead | core/kv/KvExecutor.h:378-407 | a file written from clean keys is parsed into exactly its entries |
| KvReadBack.CutShortIsMalformed | core/kv/KvExecutor.h:388-412 | a file written from clean keys and cut short anywhere is malformed |
| KvReadBack.FirstOfEqualKeysCounts | core/kv/KvExecutor.h:396-403 | of equal keys in one file the first one counts |
| KvReadBack.OtherMemberHoldsNoKeys | core/kv/KvExecutor.h:396 | an object with another member, or whose keys are no object, holds no keys and is not malformed |
| KvReadBack.OtherTextHoldsNoKeys | core/kv/KvExecutor.h:396 | text that is no object holds no keys; it is malformed if and only if it is not balanced |
| KvReadBack.FileWeighs | core/kv/KvExecutor.h:378-407 | no file yields more than was written into it, and as much only with clean keys |
| KvListings.ListedChunks | core/kv/KvExecutor.h:353-359 | whatever the order of the listing, the files hold the same chunks |
| KvListings.EnumerationIsMap | core/kv/KvExecutor.h:302 | an iteration of a map has its size, its weight and its content |
| KvLaws.SaveThenLoadOverlays | core/kv/KvExecutor.h:277-373 | loading a save puts exactly the saved entries over what is in the map, counts them and answers LoadComplete, for every iteration and listing order; for an empty map it stays at Loading |
| KvLaws.SaveThenLoadRestoresExactlyCleanKeys | core/kv/KvExecutor.h:309 | saving and loading restores a map if and only if no key holds a quote, a backslash or a control character |
| KvLaws.QuotedKeyCollides | core/kv/KvExecutor.h:302-321 | for every two different keys and all values: two different maps with equal directories of one file; that file is what saving the first map writes, and what saving the second, iterated in that order, writes if and only if its first entry stays below the limit |
| KvLaws.LoadingMeansNoFiles | core/kv/KvExecutor.h:339-369 | loading answers Loading if and only if there is no file, whatever the files hold |
| KvLaws.LoadErrorMeansMalformed | core/kv/KvExecutor.h:353-359 | for every directory and listing order, loading answers LoadError if and only if some file is malformed |
| KvLaws.LoadErrorKeepsFilesBefore | core/kv/KvExecutor.h:353-359 | it ends at the first malformed file listed, with the map and the count of the files before it |
| KvLaws.KeysAreCounted | core/kv/KvExecutor.h:398-402 | without a malformed file the count is the number of keys of all files together |
| KvLaws.LastFileCounts | core/kv/KvExecutor.h:398-402 | of the files that hold a key, the last one listed decides its value |
| KvLaws.KeyOfNoFile | core/kv/KvExecutor.h:398-402 | a key that no file holds stays as it was |
| KvLaws.CutShortSaveIsLoadError | core/kv/KvExecutor.h:353-412 | if any file of a save is cut short, anywhere, loading answers LoadError, in every listing order |
| KvLaws.NumberOfFiles | core/kv/KvExecutor.h:294-321 | lower and upper bound for the number of files in terms of what the map weighs, for the limit of 10 MiB |
| KvLaws.SetAllOverlays | core/kv/KvExecutor.h:247-248 | setting a request's items in any order overlays the map with them; after a clear, the map is the request |

## Left out

- ArrReference.OpReplyRefines: the reference does not say what max answers for an array that is neither full nor empty, because the code then answers slots that are not live.
- ArrArray.SortedArray.ReadItem: a read past the items yields some value; that it may not return at all is not modelled.
- LstLaws.NodesAreNeverCopied: overwriting assigns values into nodes that stay (core/lst/LstList.h:83), so with node identities for nodes the result is about runs without it; with values it is about all runs.
- ArrArray.SortedArray.SetRange: items are integers; the sorted string arrays run the same template with another order.
- JsonText.MembersWeigh: of the JSON library only what saved files need is modelled: spaces are skipped before member names only, names have the two-character escapes but not the four-digit ones, the first of equal names counts, and the text of a value is kept as it is instead of being parsed and printed again.
- KvLaws.SaveThenLoadRestoresExactlyCleanKeys: proved for the reader just described. A value is the text it is printed as, with its strings and the nesting of its brackets but not their kinds, so balanced text that is not JSON counts as a value and not as malformed; that parsing and printing it again gives the same text is taken from the JSON library.
- KvExecutor.EntryText: a character is a byte; no encoding is modelled.
- KvExecutor.SaveKv: I/O errors other than an existing directory, durations, and the metadata file with its own status.
- 64-bit sizes: positions and counts are unbounded, so the sum in `hasCapacity` cannot wrap around.
- Unsorted arrays, `swap`, `get`, `len`, `used`, `exist` and the one-argument `clear` of arrays; `get`, `len` and `exist` of lists; `set`, `get`, `add`, `remove`, `clear`, `contains`, `keys` and `count` commands of the map: one-step look-ups and writes.
- Parameter validators other than the order of a range: requests arrive with their parameters present and of the right type.
- Exceptions other than those of reading a file: allocation does not fail.
- `std::list` nodes and the hash maps inside: a list is the sequence of its nodes, a map is a map.
- The server around the engines: connections, threads, configuration, logging, clients.
