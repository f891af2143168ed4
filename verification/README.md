# Model of the NVR support library

The library serves a network video recorder: `msstd` holds its lists, thread pool, codecs and leak
detector, `msdb` keeps its settings in SQLite. This project models the parts that carry state or
that have to fit each other, in Dafny, and proves what they promise. Methods stand for the C
functions, with their loops, branches and error returns; each is tied by its contract to a
specification over sequences, and the lemmas are about those specifications.

- **Leak detector** (`LeakRecords`, `LeakList`, `LeakAccounting`, `LeakRuns`, `LeakRefinement`).
  The list of `memory.c` is modelled on the heap, with its head and tail pointers. Beside it stands a machine of
  threads whose allocator calls lie outside the mutex. Its accounts balance after every run, so
  between calls the list is the set of live blocks, short of at most one block for every step that
  failed; the list takes whole runs of the machine. Runs are shown in which any number of calls
  overlap and addresses are handed out again at once.
- **Counted list and iterator** (`PositionalList`, `ListIterator`). The iterator removes through
  `prev`, the address of a link; a link is the head field of the list or the next field of a node.
  It is proved exactly when the iterator may remove, and what every insertion does to it.
- **Task pool** (`TaskPool`, `PoolInterleaving`, `PoolRuns`, `PoolRefinement`). Tasks leave in the
  order of arrival; the size check is outside the lock, so N adders can overshoot the maximum by N. They
  never overshoot by more, and for every N a run that gets there, with different tasks, is
  constructed. The chain on the heap takes the steps of the interleaving.
- **Codecs** (`Base64Table`, `Base64`, `Base64Laws`, `BitText`, `HexText`, `HexToBase64`,
  `Base64ToHex`, `CodecLaws`, `Percent`, `PercentLaws`). The routines write into arrays. The base64
  encoder is the bit stream of section 4 of RFC 4648; decoding inverts it for every input and every
  buffer size, and it inverts decoding exactly on the canonical texts of section 3.5. The streaming
  decoder and the converter from hexadecimal are related to the encoder for all inputs.
- **Schedules in tables** (`SlotGrid`, `SlotGridLaws`, `RecordSchedule`, `RecordScheduleLaws`,
  `RecordSlots`). A table is the sequence of its rows. Saving and loading again is computed slot by slot.
- **SQL text and retries** (`SqlText`, `SqliteRetry`); **bits of a word** (`BitField`).

`CText` and `Sequences` hold what several modules need.

Some expectations turn out to be false of the code, and the exact condition is proved instead:

- `write_record_schedule` compares the number of skipped items with `MAX_PLAN_NUM_PER_DAY` (12)
  after a loop over `MAX_PLAN_NUM_PER_DAY*MAX_WND_NUM` (48) items (`msdb.c:1718` and `msdb.c:1730`,
  constants from `msdb.h:20-22`). So an enabled day without items comes back disabled, and an
  enabled day with exactly 36 items loses the first of them. With `MAX_WND_NUM` equal to 1 neither
  could happen.
- `hex_2_base64` writes `=` for every zero group, not only for padding. It agrees with
  `ms_base64_encode`, and can be read back, exactly when no group of the data is zero.
- `__ms_realloc(NULL, n)` allocates a block that is never on record, because there is no record to
  replace; the same happens when `add` gets no node.
- `ms_list_iterator_add` at the iterator's own position leaves `prev` behind, and removing then
  unlinks more than it counts; the next `ms_list_get_next` repairs it.
- `url_encode` alone does not survive `url_decode` when there is a percent sign in the text, and
  `sqa_encode` alone does not when there is a plus sign; together they always do.

## Model

| member | source | states |
|---|---|---|
| `LeakList.Tracker.Append` | project/src/libs/msstd/memory.c:33-55 | one new node behind the old ones, with the record in it, after any history of the list; without a node the list is as before |
| `LeakList.Tracker.Unlink` | project/src/libs/msstd/memory.c:72-73 | taking the next node out of the chain leaves a chain of the others, in order |
| `LeakList.Tracker.Erase` | project/src/libs/msstd/memory.c:57-80 | erasing at the head, in the middle or at the tail takes out that record alone; the tail pointer is right whenever a list is left, and the node is given back |
| `LeakList.Tracker.Clear` | project/src/libs/msstd/memory.c:82-94 | every node is given back once, and the leftover tail pointer does no harm |
| `LeakList.Tracker.AddMemInfo` | project/src/libs/msstd/memory.c:96-107 | one record more, with the file name cut to its field; the nodes are old ones or new |
| `LeakList.Tracker.RemoveMemInfo` | project/src/libs/msstd/memory.c:109-124 | the first record with the address goes and the order of the rest stays, in the nodes they were in; an unknown address changes nothing |
| `LeakList.Tracker.ReplaceMemInfo` | project/src/libs/msstd/memory.c:126-142 | the first record with the old address is handed to the new one, in place, in the same nodes |
| `LeakList.Tracker.GetCurList` | project/src/libs/msstd/memory.c:237-249 | counts the records |
| `LeakRecords.RemoveFirstAt` | project/src/libs/msstd/memory.c:109-124 | what is removed is the record at the first matching index |
| `LeakRecords.ReplaceFirstAt` | project/src/libs/msstd/memory.c:126-142 | what is replaced is the record at the first matching index, and nothing else changes |
| `LeakRecords.OccurrencesRemoveFirst` | project/src/libs/msstd/memory.c:109-124 | a removal takes one occurrence of one address |
| `LeakRecords.OccurrencesReplaceFirst` | project/src/libs/msstd/memory.c:126-142 | a replacement moves one occurrence from the old address to the new one |
| `LeakAccounting.StepRecords` | project/src/libs/msstd/memory.c:96-142 | what a list operation does to the records of every address, whether it finds its record or not |
| `LeakAccounting.StepBalanced` | project/src/libs/msstd/memory.c:96-209 | every step of every thread, failing ones included, keeps tracked + held by calls + lost = live + outdated, address by address |
| `LeakAccounting.StepCost` | project/src/libs/msstd/memory.c:33-163 | a step loses at most one record, and only one that failed does |
| `LeakAccounting.RunBalanced` | project/src/libs/msstd/memory.c:96-209 | so does every run, with any of the interleavings and failures there are, and no more records are lost than steps failed |
| `LeakAccounting.CostlyLast` | project/src/libs/msstd/memory.c:33-37 | what counts as a failed step: a record without a node, and realloc of the null pointer |
| `LeakAccounting.FindsRecord` | project/src/libs/msstd/memory.c:109-142 | remove_mem_info and replace_mem_info search in vain only for a block whose record was lost, or for the null pointer |
| `LeakAccounting.QuiescentExact` | project/src/libs/msstd/memory.c:237-249 | when no call is in progress, every live block is on record once or lost once, nothing else is, and at most as many are lost as steps failed |
| `LeakAccounting.QuiescentComplete` | project/src/libs/msstd/memory.c:237-249 | so without failures the records are exactly the live blocks |
| `LeakAccounting.ReallocKeepsAccounts` | project/src/libs/msstd/memory.c:143-163 | in any interleaving, a moving realloc loses a record if and only if it was given the null pointer |
| `LeakAccounting.ReallocOfNull` | project/src/libs/msstd/memory.c:143-163 | a run in which realloc of the null pointer leaves a live block without a record |
| `LeakAccounting.MallocKeepsAccounts` | project/src/libs/msstd/memory.c:164-184 | in any interleaving, a malloc loses a record if and only if no node could be had for it; then the block gets no record, and else one |
| `LeakAccounting.MallocWithoutNode` | project/src/libs/msstd/memory.c:164-184 | a run in which the block of a malloc is live without a record, because no node could be had |
| `LeakRuns.CallGoesOn` | project/src/libs/msstd/memory.c:96-209 | a call in progress can go on whatever the other threads do |
| `LeakRuns.CallStarts` | project/src/libs/msstd/memory.c:143-209 | a thread between calls can start any call whatever the others do: on any address that is not live, or any block no other call has |
| `LeakRuns.AllAtOnce` | project/src/libs/msstd/memory.c:164-184 | a run after which any number of threads stand between malloc and add_mem_info at once, with any different blocks |
| `LeakRuns.AnyOrder` | project/src/libs/msstd/memory.c:164-184 | that run goes on with the records in any order of the threads, down to a list in that order of all the live blocks |
| `LeakRuns.AddressMoves` | project/src/libs/msstd/memory.c:126-163 | a run in which the address a moving realloc gave up is handed to another thread and recorded before replace_mem_info: both blocks end on record, each once |
| `LeakRuns.AddressReturns` | project/src/libs/msstd/memory.c:96-209 | a run in which one thread resizes and frees the block of another, which is in the middle of a malloc, and gets the address again |
| `LeakRuns.CanEnd` | project/src/libs/msstd/memory.c:96-209 | from every state a run leads to one in which no call is in progress |
| `LeakRefinement.Perform` | project/src/libs/msstd/memory.c:96-142 | one step of the machine, taken by the list on the heap: same records, in old nodes or new ones |
| `LeakRefinement.PerformAll` | project/src/libs/msstd/memory.c:96-142 | a whole run of the machine, taken by the list on the heap, from any list that matches |
| `LeakRefinement.CountLive` | project/src/libs/msstd/memory.c:237-249 | after any run of n threads on an empty list, between calls, mem_get_cur_list returns the number of live blocks less the lost ones, which are at most as many as steps failed |
| `PositionalList.Size` | project/src/libs/msstd/thread_ex.c:417-423 | the number of elements, -1 without a list |
| `PositionalList.Eol` | project/src/libs/msstd/thread_ex.c:425-432 | tells positions before the end from positions at or after it |
| `PositionalList.Get` | project/src/libs/msstd/thread_ex.c:518-539 | the element at a position, null outside the list |
| `PositionalList.AddTo` | project/src/libs/msstd/thread_ex.c:435-515 | one new node at the position asked for, for every position; the other nodes stay in order; a failed allocation leaves the list as it was |
| `PositionalList.Add` | project/src/libs/msstd/thread_ex.c:435-515 | the same for the elements, in old nodes or new ones, and -1 without a list |
| `PositionalList.InsertAsked` | project/src/libs/msstd/thread_ex.c:435-515 | where an element goes for every position asked for: -1 and beyond the end mean the end, and below -1 the place behind the head |
| `PositionalList.Remove` | project/src/libs/msstd/thread_ex.c:541-580 | the element at the position goes and its node alone is freed; -1 and no change outside the list |
| `PositionalList.DeleteAt` | project/src/libs/msstd/thread_ex.c:541-580 | after a removal the elements behind it are one place further up |
| `PositionalList.SpecialFree` | project/src/libs/msstd/thread_ex.c:384-399 | terminates, hands every element to free_func once, in list order, and frees every node once, in that order, and the list |
| `ListIterator.InSyncIff` | project/src/libs/msstd/thread_ex.c:582-643 | `*prev == actual` means that prev is the link to the index the iterator stands at |
| `ListIterator.GetFirst` | project/src/libs/msstd/thread_ex.c:582-596 | starts in step with the list; on an empty list only `actual` is set |
| `ListIterator.GetNext` | project/src/libs/msstd/thread_ex.c:598-611 | moves on by one, and repairs prev whatever it was |
| `ListIterator.IteratorRemove` | project/src/libs/msstd/thread_ex.c:613-631 | in step, it removes exactly the current element and no node is lost; the list stays a counted list if and only if it was in step; out of step, the nodes before the current one back to the link are neither in the list nor freed |
| `ListIterator.CutAccounts` | project/src/libs/msstd/thread_ex.c:613-631 | the nodes of a list are those that stay, the one freed, and the ones lost before it |
| `ListIterator.IteratorAdd` | project/src/libs/msstd/thread_ex.c:633-643 | for every position: exactly when the index stays right, and exactly when prev does |
| `ListIterator.RemoveAfterAdd` | project/src/libs/msstd/thread_ex.c:613-643 | a list of one element, an insertion at the iterator and a removal: no node is left in the list, one of two was freed, and the count is 1 |
| `ListIterator.WithoutStep` | project/src/libs/msstd/thread_ex.c:598-631 | visiting one element keeps the promise of the traversal, whether it is removed or passed |
| `ListIterator.RemoveWhere` | project/src/libs/msstd/thread_ex.c:582-631 | a traversal that removes what a predicate picks terminates and leaves the others, in order; every node is still in the list or was freed, once |
| `ListIterator.WithoutIs` | project/src/libs/msstd/thread_ex.c:598-631 | none of what the predicate picks is left, and every other element as often as before |
| `ListIterator.WithoutOrder` | project/src/libs/msstd/thread_ex.c:598-631 | an element that is left has as many before it as were left of those before it |
| `TaskPool.Pool.AddTask` | project/src/libs/msstd/thread_ex.c:670-699 | appends behind the last task, or refuses; the tasks keep what they are to do; with one caller there are never more than 201 tasks |
| `TaskPool.Pool.Uninit` | project/src/libs/msstd/thread_ex.c:701-731 | every task left over is freed once, in queue order; a second call refuses |
| `TaskPool.Pool.Link` | project/src/libs/msstd/thread_ex.c:681-689 | the walk ends at the last task and hangs the new one behind it |
| `PoolInterleaving.StepExclusive` | project/src/libs/msstd/thread_ex.c:680-695 | one thread at a time is between lock and unlock |
| `PoolInterleaving.StepSeparate` | project/src/libs/msstd/thread_ex.c:670-699 | no step puts a task into the chain twice, or sends one there twice |
| `PoolInterleaving.StepInvariant` | project/src/libs/msstd/thread_ex.c:670-699 | every step keeps the count, the order and the bound |
| `PoolInterleaving.PoolSafety` | project/src/libs/msstd/thread_ex.c:670-699 | in every reachable state: size plus adders past the check is at most 200 + N, the chain is as long as the count while the lock is free, it holds no task twice, and tasks leave in the order they were linked |
| `PoolInterleaving.BoundReached` | project/src/libs/msstd/thread_ex.c:676-695 | for every N a run ends with 200 + N different tasks in the queue |
| `PoolRefinement.Perform` | project/src/libs/msstd/thread_ex.c:670-699 | the chain and the count on the heap take the steps of the interleaving; a task on its way there keeps its null successor |
| `PoolRuns.AdderGoesOn` | project/src/libs/msstd/thread_ex.c:670-699 | the size check never waits for the lock; a free lock is there for every adder; who has it goes on |
| `PoolRuns.WorkerGoesOn` | project/src/libs/msstd/thread_ex.c:670-699 | the same for the workers, and a task can be taken whenever there is one |
| `PoolRuns.TakeOne` | project/src/libs/msstd/thread_ex.c:670-699 | a worker takes the head of the queue and counts it off |
| `PoolRuns.FilledAndDrained` | project/src/libs/msstd/thread_ex.c:670-699 | for every N a run that puts 200 + N different tasks into the queue and takes them all, in the order they came |
| `Base64Table.CharAtIsTable` | project/src/libs/msstd/string.c:21 | the ranges used in the proofs are the 64 characters of the table |
| `Base64Table.Lookup` | project/src/libs/msstd/string.c:131-134 | the search finds the last place that holds the character, and keeps the old value without one |
| `Base64Table.IndexOfChar` | project/src/libs/msstd/string.c:21-116 | the search inverts the table: no character stands twice |
| `Base64Table.InTable` | project/src/libs/msstd/string.c:66-116 | a character of the table is found |
| `Base64Table.OutsideTable` | project/src/libs/msstd/string.c:66-116 | any other character is left at 0xFF |
| `Base64Table.CharOfZero` | project/src/libs/msstd/string.c:21 | only the zero sextet is written `A`, and none is written as the padding |
| `Base64.EncodeBuffer` | project/src/libs/msstd/string.c:27-64 | the text of the first len bytes and its terminator are in the buffer, the rest of which is untouched |
| `Base64.DecodeBuffer` | project/src/libs/msstd/string.c:66-116 | the first len - 1 decoded bytes are in the buffer, and nothing behind them is written |
| `Base64Laws.BlockRoundTrip` | project/src/libs/msstd/string.c:27-116 | a block of one, two or three bytes comes back, with the right number of bytes |
| `Base64Laws.DecodeEncode` | project/src/libs/msstd/string.c:27-116 | decoding an encoded text gives the bytes back, for every input |
| `Base64Laws.RoundTrip` | project/src/libs/msstd/string.c:27-116 | through a buffer of len bytes the first min(n, len - 1) bytes come back, and all of them when len is below 1; the text has 4 characters for 3 bytes begun |
| `Base64Laws.EncodeCanonical` | project/src/libs/msstd/string.c:27-64 | what the encoder writes is canonical |
| `Base64Laws.EncodeDecode` | project/src/libs/msstd/string.c:66-116 | encoding a decoded canonical text gives the text back |
| `Base64Laws.SurvivesIffCanonical` | project/src/libs/msstd/string.c:27-116 | a text survives decoding and encoding if and only if it is canonical |
| `Base64Laws.ForeignIsSlash` | project/src/libs/msstd/string.c:66-116 | a character outside the alphabet is decoded as a slash, and so is padding at the first or second place of a block |
| `Base64Laws.EndsAtPadding` | project/src/libs/msstd/string.c:66-116 | padding at the third place of a block leaves one byte, at the fourth two, and ends the text |
| `BitText.EncodeByBits` | project/src/libs/msstd/string.c:27-64 | the encoder is section 4 of RFC 4648: one stream of bits in groups of six, filled up with zero bits and padded |
| `HexToBase64.BinSize` | project/src/libs/msstd/string.c:174-176 | the padding loop terminates for every number of digits, at the next multiple of six that is whole bytes away |
| `HexToBase64.PadDigits` | project/src/libs/msstd/string.c:194-196 | eight zeros at a time fill the buffer exactly: the last terminator is its last byte |
| `HexToBase64.Hex2Base64` | project/src/libs/msstd/string.c:168-222 | the text of the six-bit groups of the digits, with `=` for every zero group, in a buffer that fits |
| `HexToBase64.PadsWork` | project/src/libs/msstd/string.c:175-176 | the length is a multiple of six after n mod 3 rounds, and not before |
| `Base64ToHex.Base64To16` | project/src/libs/msstd/string.c:119-166 | writes the digits of the decoder's run and returns their number; a text that ends inside a block leaves one more digit, which is not counted |
| `CodecLaws.RunEncode` | project/src/libs/msstd/string.c:119-166 | from any block boundary, the streaming decoder reads an encoded text as the nibbles of the bytes, for all paddings |
| `CodecLaws.StreamOfEncode` | project/src/libs/msstd/string.c:119-166 | Base64to16 of an encoded text is the 2n lower-case hexadecimal digits of the n bytes, and nothing more is written |
| `CodecLaws.HexToTextIsEncode` | project/src/libs/msstd/string.c:168-222 | hex_2_base64 of the digits of some bytes is their encoding with `=` for every `A` |
| `CodecLaws.AMeansZero` | project/src/libs/msstd/string.c:21-64 | the encoding has no `A` if and only if no sextet of the data is zero |
| `CodecLaws.HexAgreesIff` | project/src/libs/msstd/string.c:168-222 | the two agree if and only if no sextet of the data is zero |
| `CodecLaws.HexRoundTripIff` | project/src/libs/msstd/string.c:118-222 | Base64to16 after hex_2_base64 gives the digits back if and only if no sextet of the data is zero; else the result is too short |
| `CodecLaws.LowerHexRoundTripIff` | project/src/libs/msstd/string.c:118-222 | the same for every text of lower-case digits of even length |
| `CodecLaws.ZeroByteFails` | project/src/libs/msstd/string.c:118-222 | one zero byte: `AA==` from the encoder, `====` from hex_2_base64, and nothing read back |
| `CodecLaws.AnyCase` | project/src/libs/msstd/string.c:168-222 | hex_2_base64 takes the sixteen digits in either case for the same bytes |
| `CodecLaws.NoDigitIsZero` | project/src/libs/msstd/string.c:186-192 | what is not one of the sixteen digits counts as a zero |
| `CodecLaws.NibbleOfByte` | project/src/libs/msstd/string.c:118-166 | the nibbles of a byte are its digits to the base 16 |
| `CodecLaws.ForeignRepeats` | project/src/libs/msstd/string.c:131-134 | Base64to16 reads a character outside the alphabet as the one before it |
| `Percent.UrlEncodeBuffer` | project/src/libs/msstd/string.c:252-287 | the escaped text and its terminator are in the buffer, the rest is untouched, and the count includes the terminator |
| `Percent.SqaEncodeBuffer` | project/src/libs/msstd/string.c:288-330 | the same for the other set of escapes |
| `Percent.UrlDecodeBuffer` | project/src/libs/msstd/string.c:224-251 | the decoded text and its terminator, for every text: an escape that does not convert is dropped, one that is cut off scans what there is |
| `PercentLaws.DecodeBoth` | project/src/libs/msstd/string.c:224-330 | url_decode undoes url_encode after sqa_encode for every text |
| `PercentLaws.DecodeSqaIff` | project/src/libs/msstd/string.c:224-330 | it undoes sqa_encode alone if and only if there is no plus sign |
| `PercentLaws.DecodeUrlIff` | project/src/libs/msstd/string.c:224-287 | it undoes url_encode alone if and only if there is no percent sign |
| `PercentLaws.DecodeUrlFails` | project/src/libs/msstd/string.c:224-287 | `%41` comes back as `A`, and a percent sign before a tabulator is lost |
| `PercentLaws.EscapedByte` | project/src/libs/msstd/string.c:236-243 | for every byte, a percent sign and its two digits, in either case, decode to the byte |
| `PercentLaws.ScanBlank` | project/src/libs/msstd/string.c:238 | the six blanks behind a percent sign are skipped |
| `PercentLaws.ScanSigned` | project/src/libs/msstd/string.c:238 | a sign takes one digit, and a minus sign gives the complement to 256 |
| `PercentLaws.ScanOneDigit` | project/src/libs/msstd/string.c:238 | one digit at the end or before something else is a number |
| `PercentLaws.ScanNone` | project/src/libs/msstd/string.c:238 | what does not begin with a digit, and the prefix 0x, are no number |
| `PercentLaws.ScanLooksAhead` | project/src/libs/msstd/string.c:236-243 | an escape that begins within the length is read beyond it |
| `PercentLaws.EscapesByDigits` | project/src/libs/msstd/string.c:252-330 | exactly which bytes are escaped, and by which two digits |
| `PercentLaws.UrlLength` | project/src/libs/msstd/string.c:252-287 | two characters more for each escape |
| `PercentLaws.SqaLength` | project/src/libs/msstd/string.c:288-330 | two characters more for each escape |
| `PercentLaws.BothWellEscaped` | project/src/libs/msstd/string.c:252-330 | every percent sign has two hexadecimal digits behind it, as section 2.1 of RFC 3986 asks |
| `SlotGrid.Table.Save` | project/src/libs/msdb/msdb.c:504-533 | the owner's rows are those of the kept slots, behind the rows of the others |
| `SlotGrid.Table.Load` | project/src/libs/msdb/msdb.c:445-484 | every place of the structure holds what the last row for it says, or what it held before; rows beyond the loop bound are not reached |
| `SlotGridLaws.SameTextIff` | project/src/libs/msdb/msdb.c:522 | two times are the same when they have one length and differ in the case of letters at most |
| `SlotGridLaws.SameWithoutLetters` | project/src/libs/msdb/msdb.c:522 | for times without letters that is equality |
| `SlotGridLaws.SaveThenLoad` | project/src/libs/msdb/msdb.c:445-533 | after a save over any table, a load into any grid fills the kept slots and leaves the others alone, the loop bound drops no row, and other owners see no change |
| `SlotGridLaws.SaveAndLoad` | project/src/libs/msdb/msdb.c:445-533 | the two functions one after the other: the kept slots hold their items, every other place of the structure is as it was, other owners see no change |
| `SlotGridLaws.MotionRoundTrip` | project/src/libs/msdb/msdb.c:445-533 | the same for the motion schedule of 8 days and 12 plans; for times of digits and colons a slot comes back exactly when start and end differ |
| `SlotGridLaws.TourRoundTrip` | project/src/libs/msdb/msdb.c:3705-3776 | the same for the 8 tours of 48 keys of a camera: a key comes back exactly when its preset is not 0 |
| `SlotGridLaws.OtherOwners` | project/src/libs/msdb/msdb.c:515-517 | deleting and inserting for one owner is invisible to another |
| `SlotGridLaws.Resave` | project/src/libs/msdb/msdb.c:504-533 | saving what was loaded over empty slots writes the same rows |
| `RecordSchedule.RecordTable.SaveDay` | project/src/libs/msdb/msdb.c:1707-1734 | the day's kept items as rows with consecutive plans, and the marker row under the code's condition |
| `RecordSchedule.RecordTable.Save` | project/src/libs/msdb/msdb.c:1687-1739 | the rows of all days in place of the channel's old ones |
| `RecordSchedule.RecordTable.Load` | project/src/libs/msdb/msdb.c:1645-1685 | the rows are put into the structure in order; without rows it is left alone |
| `RecordScheduleLaws.PutDay` | project/src/libs/msdb/msdb.c:1645-1739 | the rows of one day turn a cleared day into the reloaded day and touch no other |
| `RecordScheduleLaws.LoadSaved` | project/src/libs/msdb/msdb.c:1645-1739 | the rows of a save, loaded into a cleared structure, give every day reloaded; the loop bound drops no row |
| `RecordScheduleLaws.SavedRowsFound` | project/src/libs/msdb/msdb.c:1699-1739 | over any table, the channel finds the rows of its save and other channels find theirs |
| `RecordScheduleLaws.SaveAndLoad` | project/src/libs/msdb/msdb.c:1645-1739 | the two functions one after the other, on a table and a cleared structure |
| `RecordScheduleLaws.KeptReloaded` | project/src/libs/msdb/msdb.c:1718-1734 | which items come back, in order: all, or all but the first under a marker |
| `RecordScheduleLaws.ItemsSurviveIff` | project/src/libs/msdb/msdb.c:1718-1734 | all items of a day survive if and only if no marker is written over the first; always, with as many slots as plans |
| `RecordScheduleLaws.FlagSurvivesIff` | project/src/libs/msdb/msdb.c:1712-1734 | the flag of a day survives if and only if it was off or the day has an item; always, with as many slots as plans |
| `RecordScheduleLaws.FlagLost` | project/src/libs/msdb/msdb.c:1730 | an enabled day without items comes back disabled |
| `RecordScheduleLaws.ItemLost` | project/src/libs/msdb/msdb.c:1730 | an enabled day with 36 items and 12 free slots loses its first item |
| `RecordScheduleLaws.ResaveIff` | project/src/libs/msdb/msdb.c:1645-1739 | saving what was loaded writes the same rows if and only if no day lost an item |
| `RecordScheduleLaws.SaveLoadSave` | project/src/libs/msdb/msdb.c:1645-1739 | the three calls on a table: it is as after the first save if and only if no day lost an item |
| `RecordScheduleLaws.ReloadedOnceIff` | project/src/libs/msdb/msdb.c:1645-1739 | a second save and load changes a day if and only if the first one lost an item |
| `RecordScheduleLaws.ReloadedStays` | project/src/libs/msdb/msdb.c:1645-1739 | a second save and load loses no item, and a third changes nothing |
| `RecordSlots.SkippedIff` | project/src/libs/msdb/msdb.c:1720 | for times of digits and colons an item is saved exactly when its action is not 0 and its start differs from its end |
| `RecordSlots.ReloadedSlots` | project/src/libs/msdb/msdb.c:1645-1739 | such an item comes back in the slot whose number is the number of such items before it, but for the first under a marker; all other slots are empty; the flag comes back with any row |
| `RecordSlots.ReloadedPlans` | project/src/libs/msdb/msdb.c:1645-1739 | how many such items come back |
| `RecordSlots.DayRowsAt` | project/src/libs/msdb/msdb.c:1707-1734 | the rows of a day, field by field |
| `RecordSlots.SaveAndLoadItems` | project/src/libs/msdb/msdb.c:1645-1739 | the two functions one after the other, item by item |
| `SqlText.TranslatePwd` | project/src/libs/msdb/msdb.c:19-38 | the escaped text and its terminator, and their length |
| `SqlText.OsdName` | project/src/libs/msdb/msdb.c:224-241 | the same text for the clipped name, which always fits its 128 bytes |
| `SqlText.QuotedLength` | project/src/libs/msdb/msdb.c:19-38 | one character more for each quote, at most twice as many |
| `SqlText.LexQuoted` | project/src/libs/msdb/msdb.c:19-38 | an SQL lexer reads the escaped text between quotes as the text, and stops where the literal ends |
| `SqlText.LexRawIff` | project/src/libs/msdb/msdb.c:249-260 | a name put between quotes as it is survives if and only if there is no quote in it |
| `SqliteRetry.Execute` | project/src/libs/msdb/ccsqlite.c:55-90 | 0 exactly when a success comes before the first other failure from attempt 200 on; it goes on only while every answer is a failure, "locked" from the 200th on, and has then taken them all; every message is freed as often as it came, and no null pointer |
| `SqliteRetry.QueryRecord` | project/src/libs/msdb/ccsqlite.c:99-135 | at most 200 prepares and 200 steps, and 0 exactly on a row |
| `BitField.GetBit` | project/src/libs/msstd/bit_ex.c:7-14 | the digit at a position, by arithmetic on the number |
| `BitField.SetBit` | project/src/libs/msstd/bit_ex.c:16-25 | one digit changes, and the number by its weight |
| `BitField.GetBits` | project/src/libs/msstd/bit_ex.c:27-33 | (v / 2^p) mod 2^n, also when fewer than n digits are left |
| `BitField.PrintBits` | project/src/libs/msstd/bit_ex.c:35-43 | the digits written are those of the word, highest first, and spell its number |

## Left out

- SQLite itself, the connections, and the roughly 150 other read and write functions of `msdb.c` and `emaildb.c`: one grid stands for the schedules, and the rest copies fields.
- `ms_string_strip` (`string.c:6-20`), which takes a character out of a text in place.
- Process, thread, file, time and network wrappers, and the leak report in a file: input and output.
- `FileLock` and `FileUnlock`: the wait of one process for another is a matter of the operating system.
- The parser of URIs in `string.c`: not compiled.
- `read_privacy_masks`, `read_poe_cameras` and `write_encrypted_list`: they follow none of the patterns above.
- LeakList.Tracker.ReplaceMemInfo: does not bring the stored size up to date, as the code does not; the accounts are of addresses only.
- LeakAccounting.StepBalanced: calls that return null, and realloc to size 0, take no part; calloc and valloc take the steps of malloc.
- SlotGrid.Table.Load: rows whose day or plan lies outside the structure; the code writes outside it then.
- SlotGrid.Table.Save: does not model statements that fail or are cut by their buffer, or times with quotes in them; times are taken to fit their columns.
- RecordSchedule.RecordTable.Load: does not model rows outside the structure either.
- TaskPool.Pool.AddTask: the task is not in the queue and its next field is null, without which the code walks a circle; a counter that runs over is not modelled.
- PoolInterleaving.PoolSafety: a task is offered by one adder at a time, and not while it is queued; the workers are given by callers that are not part of this model, and are assumed to take the head and to count it off under the lock; the size is read at one instant; condition variables are left out, and threads that call ms_pool_thread_uninit meanwhile.
- TaskPool.Pool.Uninit: joining the workers is left out; the count is not brought down, as in the code, because the pool is freed.
- Base64.DecodeBuffer: text is in whole blocks of four characters; the code reads behind the terminator otherwise.
- Base64ToHex.Base64To16: the first character is in the alphabet or a `=`, because the code's variable v has no value before.
- Percent.UrlDecodeBuffer: `0x` behind a percent sign does not convert, as the C standard has it (section 7.21.6.2 of C11); some libraries read a zero there. What stands behind the text is taken to be a terminator, which sscanf does not read past.
- SqliteRetry.Execute: null arguments and the waiting times are left out, and the answers are a finite sequence, at the end of which the call is still waiting.
- BitField.GetBits: positions and widths of 64 and more, for which a shift is not defined in C.
- Inputs are sequences, and only the buffers that are written are arrays: what overlaps is not modelled.
