# AliOS Things components, modelled and proved

Models of six parts of the repository, each in the form the C code has: linked
lists and rings on the heap, buffers written in place, counters that wrap
around, a protocol of atomic steps.  `dafny verify dfyconfig.toml` checks
everything.

- **JSON trees** (`Json*.dfy`, `Decimal.dfy`).  Documents are trees; `Denote`
  gives what a document means (members without order, keys without case), and
  `cJSONUtils_Compare` is proved to decide it.  On top of that stand JSON Pointer
  (RFC 6901), JSON Patch (RFC 6902) and Merge Patch (RFC 7396), each generated
  and applied as the code does, and the two round trips with their exact
  conditions.  Keys are compared ignoring case, which departs from section 4 of
  RFC 6901; the model follows the code.  `JsonNodes` has the merge sort and the
  detach on linked nodes.
- **Sockets** (`Select*.dfy`, `Sal*.dfy`).  `sal_select` and `sal_deal_event` are
  a transition system whose steps are the protected regions; any number of
  threads select and post.  What wakes a select and what it answers is proved of
  every run.  Port allocation and receiving are classes.  The TCP
  and UDP twins of the port code (210-309 and 311-410) are the same class.
- **Cron expressions** (`Cron*.dfy`).  The parser against the sets its grammar
  denotes, and the search for the next time on a UTC calendar, with the exact
  conditions under which its answers are the earliest match.
- **Event loop** (`DList.dfy`, `TimerQueue.dfy`, `EventDevice.dfy`).  The
  intrusive list, the timer queue and the event device on it; each class carries
  the abstract queue or the calls made so far as ghost state.
- **Command history** (`HistoryRing.dfy`).  The ring of NUL-terminated lines
  against the list of recent lines.
- **Arithmetic and codecs** (`Gf2.dfy`, `WordBits.dfy`, `Crc.dfy`,
  `Tickless.dfy`, `Ip4Text.dfy`, `Base64.dfy`).

Where a law does not hold of the code, the model keeps the code, and the
condition under which it holds, no more and no less, is part of the theorem:
`Reachable`, `RootReplaced` and `Touched` for patches, `Kept` and `PatchTouches`
for merge patches, `Settled`, `Unskipped` and `Hurried` for cron expressions, 255 threads for select, the
`prev` of the first child for detaching, divisors of 10^6 for ticks, canonical
texts for base64.  `Outcome.Fault` (None for a merge) stands for what C leaves
undefined: a NULL dereference on a path without a '/', and taking out a first
member whose `prev` is set, after which the list is a ring.  An object records
that state of its first member as `stale`.

## Model

| member | source | states |
|---|---|---|
| JsonPatchTheorem.PatchRoundTrip | Living_SDK/utility/cjson/cJSON_Utils.c:318-627 | Patch round trip, for every pair of documents and every `x` equal to `from`: applying the generated patch is a fault exactly when the root itself has to be replaced or a first member that still has a `prev` is taken out; otherwise it succeeds, and the result compares equal to `to` exactly when no compared pair of arrays shrinks by two elements or more |
| JsonPatchTheorem.PatchYields | Living_SDK/utility/cjson/cJSON_Utils.c:500-619 | Applying the generated edits to any document that means `from` either takes out such a first member, or succeeds and leaves exactly the meaning `Patched(from, to)`, arrays that shrink included |
| JsonPatchTheorem.PatchOwnSource | Living_SDK/utility/cjson/cJSON_Utils.c:500-627 | The same for `from` itself, whose objects the generator has sorted in place: exactly when its own patch can be applied to it, and with what result |
| JsonPatchTheorem.OwnSourceFaults | Living_SDK/utility/cjson/cJSON_Utils.c:573-619 | A concrete failure: sorting brings a member to the front that the patch removes; on a copy the patch goes through |
| JsonPatchTheorem.CopyGoesThrough | Living_SDK/utility/cjson/cJSON_Utils.c:500-627 | On a `cJSON_Duplicate` of `from` a root that has to be replaced is the only fault |
| JsonPatchTheorem.CopyUntouched | Living_SDK/utility/cjson/cJSON.c:1975-2042 | No first member of a copy has a `prev`, at any depth |
| JsonPatchTheorem.PatchedIsIntended | Living_SDK/utility/cjson/cJSON_Utils.c:527-619 | That meaning is the meaning of `to` if and only if `Reachable(from, to)` |
| JsonPatchTheorem.RemoveTail | Living_SDK/utility/cjson/cJSON_Utils.c:561-566 | Removing the ascending indices c, c+1, ... leaves every second element of the tail, not none of it |
| JsonPatchTheorem.AddTail | Living_SDK/utility/cjson/cJSON_Utils.c:567-571 | Appending the elements left over adds them in order |
| JsonPatchTheorem.ShrinkingArrayMissed | Living_SDK/utility/cjson/cJSON_Utils.c:561-566 | A concrete failure: from four elements to two, the patch applies without error and leaves three |
| JsonPatch.ApplyPatchesLoop | Living_SDK/utility/cjson/cJSON_Utils.c:476-498 | The loop over a patch document computes `ApplyPatches`: it stops at the first error, with the patches before it applied |
| JsonOperations.AddAnswers | Living_SDK/utility/cjson/cJSON_Utils.c:434-473 | "add" at any place: 7 without a value, 9 without the place; otherwise the meaning there has the value put in, as member, at the index or at the end, and nothing else changes; a fault exactly when it has to take out a first member with a `prev` |
| JsonOperations.RemoveAnswers | Living_SDK/utility/cjson/cJSON_Utils.c:369-378 | "remove" at any place: what is named there goes, and nothing there is no error |
| JsonOperations.ReplaceAnswers | Living_SDK/utility/cjson/cJSON_Utils.c:369-378 | "replace": what is there goes even when the value is missing (7); then as "add" |
| JsonOperations.MoveAnswers | Living_SDK/utility/cjson/cJSON_Utils.c:380-432 | "move" between any two places: 4 without "from", 5 with nothing there; otherwise the value is gone from there and put at the path, or lost with 9 |
| JsonOperations.CopyAnswers | Living_SDK/utility/cjson/cJSON_Utils.c:380-432 | "copy": the same from a document that keeps the value |
| JsonOperations.TestAnswers | Living_SDK/utility/cjson/cJSON_Utils.c:357-361 | "test": the document stays, and the answer is 0 exactly when the place means what the value means; a fault when one of them is missing |
| JsonOperations.Malformed | Living_SDK/utility/cjson/cJSON_Utils.c:318-366 | 1 for patches that are no array, 2 without "op" or "path", 3 for any other operation |
| JsonOperations.MoveMember | Living_SDK/utility/cjson/cJSON_Utils.c:380-473 | In one object with meaning m: moving f to k gives (m - {f})[k := m[f]], or 5 without f |
| JsonOperations.CopyMember | Living_SDK/utility/cjson/cJSON_Utils.c:380-473 | ... copying gives m[k := m[f]] |
| JsonOperations.TestMember | Living_SDK/utility/cjson/cJSON_Utils.c:357-361 | ... and testing compares m[k] with the value |
| JsonOperations.MoveItem | Living_SDK/utility/cjson/cJSON_Utils.c:380-473 | In one array an element is moved after the others have closed up |
| JsonOperations.MoveOnly | Living_SDK/utility/cjson/cJSON_Utils.c:380-473 | {"a": v} with "a" moved to "b" is {"b": v} |
| JsonOperations.PointerMeans | Living_SDK/utility/cjson/cJSON_Utils.c:164-205 | A pointer finds what its steps lead to in the meaning, and nothing exactly when they lead nowhere |
| JsonOperations.ChangedThere | Living_SDK/utility/cjson/cJSON_Utils.c:164-205 | A change at a place is seen there |
| JsonOperations.ChangedElsewhere | Living_SDK/utility/cjson/cJSON_Utils.c:164-205 | ... and at no place whose pointer parts from it |
| JsonPatch.PatchListApplies | Living_SDK/utility/cjson/cJSON_Utils.c:318-525 | Reading the generated patch objects back (op, path, value members) performs exactly the generated edits |
| JsonPatch.EditsAreRelative | Living_SDK/utility/cjson/cJSON_Utils.c:527-619 | The edits of a subtree are the same whatever path prefix they are generated under |
| JsonRoundTrip.EditsBelow | Living_SDK/utility/cjson/cJSON_Utils.c:223-258 | Edits whose paths lead below one child change that child as they would alone and no other |
| JsonRoundTrip.ItemPatched | Living_SDK/utility/cjson/cJSON_Utils.c:555-560 | The edits for one array element patch it in place and leave its neighbours, or are a fault exactly when they touch a first member with a `prev` |
| JsonRoundTrip.ContainerMember | Living_SDK/utility/cjson/cJSON_Utils.c:589-599 | The edits for one member that is a container patch it and leave all other members, with the same fault |
| JsonRoundTrip.ScalarMember | Living_SDK/utility/cjson/cJSON_Utils.c:589-599 | The edits for one member whose value is replaced set it and leave all other members; a fault exactly when it is first, has a `prev` and changes |
| JsonRoundTrip.DetachMember | Living_SDK/utility/cjson/cJSON_Utils.c:250-253 | Detaching by key removes the member with that key ignoring case, and no other; a fault exactly for a first member with a `prev` |
| JsonRoundTrip.AddMember | Living_SDK/utility/cjson/cJSON_Utils.c:462-466 | Adding a member replaces whatever had its key, with the same fault |
| JsonPointer.FindThenGet | Living_SDK/utility/cjson/cJSON_Utils.c:116-206 | Print and evaluate: following the pointer printed for any node of any tree leads back to that very node, with any keys |
| JsonPointer.GetPointerValid | Living_SDK/utility/cjson/cJSON_Utils.c:164-205 | A pointer that resolves names a node of the tree |
| JsonText.DecodeEncode | Living_SDK/utility/cjson/cJSON_Utils.c:93-114 | Unescaping undoes escaping |
| JsonText.Escapes | Living_SDK/utility/cjson/cJSON_Utils.c:208-221 | "~" and "/" are written "~0" and "~1"; read back, any character but 0 behind a "~" gives "/" |
| JsonText.TokenMatchesEncoded | Living_SDK/utility/cjson/cJSON_Utils.c:44-77 | A key matches an escaped token exactly when the two agree ignoring case, whatever follows the token |
| JsonText.Pstrcasecmp | Living_SDK/utility/cjson/cJSON_Utils.c:44-77 | The comparison loop answers 0 exactly on a match |
| JsonText.EncodedLengthExact | Living_SDK/utility/cjson/cJSON_Utils.c:79-91 | The length computed for the buffer is the length of the escaped text |
| JsonText.PointerEncodedStrlen | Living_SDK/utility/cjson/cJSON_Utils.c:79-91 | The loop computes that length |
| JsonText.PointerEncodedStrcpy | Living_SDK/utility/cjson/cJSON_Utils.c:93-114 | Writes the escaped text and its terminator and nothing outside them |
| JsonText.InplaceDecodePointerString | Living_SDK/utility/cjson/cJSON_Utils.c:208-221 | Decoding in place leaves the decoded text and a terminator at the front of the same buffer |
| JsonText.DecodeShrinks | Living_SDK/utility/cjson/cJSON_Utils.c:208-221 | Decoding never lengthens a text |
| JsonText.StrCaseCmpZero | Living_SDK/utility/cjson/cJSON_Utils.c:22-42 | The key comparison answers 0 exactly for keys that agree ignoring case |
| JsonText.StrCaseCmpLoop | Living_SDK/utility/cjson/cJSON_Utils.c:22-42 | The loop computes that comparison |
| Decimal.ReadPrinted | Living_SDK/utility/cjson/cJSON_Utils.c:169-183 | Reading a printed array index gives the index and the rest of the text |
| Decimal.AtoiPrinted | Living_SDK/utility/cjson/cJSON_Utils.c:246-249 | So does the `atoi` of the detach and the insert |
| JsonTree.CompareDecidesMeaning | Living_SDK/utility/cjson/cJSON_Utils.c:260-316 | `cJSONUtils_Compare` answers 0 if and only if the two documents have the same meaning, members in any order |
| JsonTree.CompareCodes | Living_SDK/utility/cjson/cJSON_Utils.c:260-316 | The codes -1 to -6 at the root |
| JsonTree.DuplicateMeans | Living_SDK/utility/cjson/cJSON.c:1975-2042 | A copy has the meaning of the original |
| JsonMerge.MergePatchRoundTrip | Living_SDK/utility/cjson/cJSON_Utils.c:741-828 | Merge patch round trip, for every pair of documents and every `x` equal to `from`: no patch exactly for equal objects with the same key spellings; otherwise merging it into `x` is a fault exactly when it takes out a first member with a `prev`, and without a fault gives a document equal to `to` if and only if `Kept(from, to)`: the `strcmp` walk reads no member of `to` before its counterpart, and `to` holds no null that the patch would have to express |
| JsonMerge.LeftIntended | Living_SDK/utility/cjson/cJSON_Utils.c:741-772 | What is left under one key is what `to` has there if and only if that member is kept |
| JsonMerge.NoneMeansEqual | Living_SDK/utility/cjson/cJSON_Utils.c:774-828 | The generator answers NULL exactly for two equal objects that spell their keys alike, for all documents |
| JsonMerge.MergeFaults | Living_SDK/utility/cjson/cJSON_Utils.c:741-772 | A merge is a fault exactly when an entry takes out a first member with a `prev`, at any depth |
| JsonMerge.GeneratedRegular | Living_SDK/utility/cjson/cJSON_Utils.c:774-828 | A generated patch has at most one entry per key that is not null |
| JsonMerge.MergeDenotes | Living_SDK/utility/cjson/cJSON_Utils.c:741-772 | Merging computes the merge of the meanings that RFC 7396, section 2, describes |
| JsonMerge.MergedByKey | Living_SDK/utility/cjson/cJSON_Utils.c:741-772 | Key by key: null removes, another value is merged into what is there, what is not mentioned stays; a target that is no object counts as empty, a patch that is no object replaces it |
| JsonMerge.MergePatchUndoesGenerate | Living_SDK/utility/cjson/cJSON_Utils.c:741-828 | For lower-case keys and a target without null members, merging the patch into a copy of `x` always gives `to` |
| JsonMerge.LowerCaseMeets | Living_SDK/utility/cjson/cJSON_Utils.c:787-795 | Members under lower-case keys are always read together |
| JsonMerge.LowerCaseKept | Living_SDK/utility/cjson/cJSON_Utils.c:787-795 | Lower-case keys and a target without nulls meet `Kept` |
| JsonMerge.MixedCaseMissed | Living_SDK/utility/cjson/cJSON_Utils.c:787-795 | A concrete failure of the `strcmp` walk over lists sorted ignoring case: the merged document is empty |
| JsonSort.SortPermutes | Living_SDK/utility/cjson/cJSON_Utils.c:630-734 | The merge sort permutes its list |
| JsonSort.SortSorts | Living_SDK/utility/cjson/cJSON_Utils.c:630-734 | ... and sorts it by the case-insensitive order |
| JsonNodes.SortList | Living_SDK/utility/cjson/cJSON_Utils.c:630-734 | On the heap: terminates, rewires the same nodes into that order, mirrors every `next` by a `prev`, and leaves the `prev` of the node that comes first as it was |
| JsonNodes.MergeLists | Living_SDK/utility/cjson/cJSON_Utils.c:677-733 | Merging two sorted chains by relinking computes the merge |
| JsonNodes.AlreadySorted | Living_SDK/utility/cjson/cJSON_Utils.c:642-651 | The test for a sorted list, with strict order between neighbours |
| JsonNodes.Middle | Living_SDK/utility/cjson/cJSON_Utils.c:654-665 | The two-pointer walk stops at the middle |
| JsonNodes.DetachItemViaPointer | Living_SDK/utility/cjson/cJSON.c:1614-1637 | Detaching relinks the neighbours; the rest stays a chain exactly when the first child has no `prev` or another child is detached |
| JsonNodes.SortThenDetachFirst | Living_SDK/utility/cjson/cJSON_Utils.c:736-739 | After sorting an object, detaching its first member keeps the chain if and only if the sort left the first member in place; otherwise a ring results |
| SelectProof.NoWakeUpIsLost | Living_SDK/device/sal/sal_sockets.c:965-1080 | In every interleaving of at most 255 selects and any number of event posters: a select parked and unsignalled with a ready socket in its sets has a walk on that socket which is yet to visit it; `select_waiting` counts the registered selects; no select is given a second signal |
| SelectAnswer.SelectAnswers | Living_SDK/device/sal/sal_sockets.c:908-1192 | In every run, for every call that has returned: -1, with the caller's sets as they were, exactly when it had to wait and one of its sockets is not open; otherwise the sets written back are what the last scan found ready, each socket looked at once and in order, and the answer is their size; or 0 with empty sets after the time ran out; 0 without waiting only for a zero timeout |
| SelectAnswer.CalmAnswer | Living_SDK/device/sal/sal_sockets.c:1098-1192 | When the sockets do not change during the last scan, these are the sets of sockets ready at the end, by their counters and `lastdata`, and the answer counts them |
| SelectAnswer.RunExecutes | Living_SDK/device/sal/sal_sockets.c:908-1192 | A run state by state is an execution |
| SelectAnswer.ExecutionRuns | Living_SDK/device/sal/sal_sockets.c:908-1192 | ... and every execution is one |
| SelectProof.PostCounts | Living_SDK/device/sal/sal_sockets.c:1512-1541 | What each event does to the counters of its socket, in 16 bits |
| SelectProof.NextKeepsInv | Living_SDK/device/sal/sal_sockets.c:965-1080 | Every atomic step of `sal_select` and `sal_deal_event` keeps the invariant |
| SelectProof.RunsKeepInv | Living_SDK/device/sal/sal_sockets.c:1512-1600 | So does every run from an initial state |
| SelectProof.WalkArrives | Living_SDK/device/sal/sal_sockets.c:1556-1600 | Left to itself, the walk a parked select waits for signals it within one pass over the list |
| SelectProof.PostKeepsInv | Living_SDK/device/sal/sal_sockets.c:1512-1548 | Counting an event and starting the walk keeps the invariant, also when nobody is counted as waiting |
| SelectProof.WalkKeepsInv | Living_SDK/device/sal/sal_sockets.c:1556-1600 | A pass of the walk, restarted when the list has changed, keeps it |
| SelectProof.SelectKeepsInv | Living_SDK/device/sal/sal_sockets.c:908-1080 | Scans, registration, enlisting, waiting, and leaving keep it |
| SelectProof.ScanFindsReady | Living_SDK/device/sal/sal_sockets.c:1127-1191 | What the second scan passes over without counting was not ready |
| SelectOverflow.NoLostWakeUpExactly | Living_SDK/device/sal/sal_sockets.c:965-1080 | From a quiet state with an open socket and a poster, no run loses a wake-up if and only if at most 255 threads select: with 256 a run is built in which all of them wait and an event wakes nobody |
| SelectOverflow.AllPark | Living_SDK/device/sal/sal_sockets.c:981-993 | Any number of idle threads can be brought to wait on one socket, and the 8-bit count is then their number modulo 256 |
| SelectOverflow.EventUnseen | Living_SDK/device/sal/sal_sockets.c:1543-1548 | With the count at 0 an event starts no walk, and a waiting select is left behind |
| SelectOverflow.EmptyLeads | Living_SDK/device/sal/sal_sockets.c:1512-1540 | A run from any quiet state empties the socket first |
| SalPorts.PortTable.NewPort | Living_SDK/device/sal/sal_sockets.c:210-235 | Terminates; answers the first unbound port after the last one handed out, going round 0xc000..0xffff, and 0 exactly when all 16384 are bound |
| SalPorts.AllTried | Living_SDK/device/sal/sal_sockets.c:210-235 | When a full round has met only bound ports, no port of the range is free |
| SalPorts.EveryPortReached | Living_SDK/device/sal/sal_sockets.c:196-222 | A full round of increments reaches every port of the range |
| SalPorts.NextPort | Living_SDK/device/sal/sal_sockets.c:220-222 | One increment with wrap-around is one step of that round |
| SalPorts.PortTable.PortBound | Living_SDK/device/sal/sal_sockets.c:224-232 | The search of the list answers whether a port is bound |
| SalPorts.PortTable.Bind | Living_SDK/device/sal/sal_sockets.c:237-287 | A block gets the port it asks for unless another block has it, or a free dynamic port for 0; the list stays acyclic with distinct ports, rebinding included |
| SalPorts.PortTable.Remove | Living_SDK/device/sal/sal_sockets.c:289-309 | Takes exactly the given block off the list, if it is on it |
| SalStream.TcpConserves | Living_SDK/device/sal/sal_sockets.c:1193-1303 | A TCP read splits the waiting bytes in two and loses nothing |
| SalStream.TcpExtent | Living_SDK/device/sal/sal_sockets.c:1218-1299 | How far a read reaches: all short buffers in front and `len` bytes of the first buffer that has as many |
| SalStream.TcpWithinRequest | Living_SDK/device/sal/sal_sockets.c:1252 | A read returns at most `len` bytes if and only if no byte comes before the first buffer of `len` bytes, or without one everything waiting fits |
| SalStream.Socket.RecvFrom | Living_SDK/device/sal/sal_sockets.c:1193-1303 | Bytes delivered, then the unread rest, then the mailbox are the bytes accepted, over any calls; peeking changes nothing; a UDP read delivers a prefix of one datagram; the conditions of every error |
| SalStream.Socket.PacketInput | Living_SDK/device/sal/sal_sockets.c:1439-1510 | Accepts a packet exactly when it is not empty and the mailbox has space, and appends it |
| SalStream.Socket.RecvData | Living_SDK/device/sal/sal_sockets.c:881-906 | Takes the oldest packet and counts it |
| DList.AddBetween | Living_SDK/include/aos/list.h:36-43 | Adding between two neighbours of a ring gives the ring with the node inserted there |
| DList.Add | Living_SDK/include/aos/list.h:56-59 | Adding at the front |
| DList.AddTail | Living_SDK/include/aos/list.h:61-64 | Adding before a given link, at the end for the head |
| DList.Del | Living_SDK/include/aos/list.h:66-73 | Deleting gives the ring without the node |
| DList.Empty | Living_SDK/include/aos/list.h:86-89 | Empty exactly when the ring is its head alone |
| DList.Init | Living_SDK/include/aos/list.h:75-78 | A link initialised is a ring of its own |
| TimerQueue.RunInOrder | Living_SDK/kernel/yloop/yloop.c:165-217 | After any sequence of posts, cancels and firings the queue is sorted by deadline, equal deadlines in the order posted |
| TimerQueue.StepIsPlain | Living_SDK/kernel/yloop/yloop.c:165-217 | The numbering by calls does not change what a call does to the queue, so the order holds of the ring the class carries |
| TimerQueue.FiredFirst | Living_SDK/kernel/yloop/yloop.c:272-282 | The first timeout fires exactly when it is due, nothing pending is due earlier, and the others stay |
| TimerQueue.PostedSorted | Living_SDK/kernel/yloop/yloop.c:178-192 | Posting adds just the new timeout, behind all that are not later and in front of all that are later, and keeps the queue sorted |
| TimerQueue.CancelledSorted | Living_SDK/kernel/yloop/yloop.c:195-217 | Cancelling takes out the first match and nothing else, nothing without a match, and keeps the order |
| TimerQueue.CancelledInFields | Living_SDK/kernel/yloop/yloop.c:199-213 | In the fields: the first timeout with that action and that argument goes, and with that time unless -1 is given; nothing goes when there is none |
| TimerQueue.OthersPending | Living_SDK/kernel/yloop/yloop.c:199-213 | A timeout with another action, argument or time is pending as often as before |
| TimerQueue.Loop.PostDelayedAction | Living_SDK/kernel/yloop/yloop.c:165-193 | On the heap: the ring afterwards carries the queue with the timeout in its place; a NULL action is refused |
| TimerQueue.Loop.CancelDelayedAction | Living_SDK/kernel/yloop/yloop.c:195-217 | On the heap: the first timeout with that action, argument and time (or any, for -1) leaves the ring, and every other stays |
| TimerQueue.Loop.PollTimeout | Living_SDK/kernel/yloop/yloop.c:245-258 | The time to sleep: -1 exactly without timeouts, 0 when the first one is due, else the time left to its deadline |
| TimerQueue.Loop.CheckTimeouts | Living_SDK/kernel/yloop/yloop.c:272-282 | At most the first action, and only when due, leaves the ring and is handed out |
| EventDevice.ExactlyOnce | Living_SDK/kernel/vfs/device.c:67-155 | Over any run, every message written is delivered or pending, once |
| EventDevice.PendingInOrder | Living_SDK/kernel/vfs/device.c:92-96 | Pending urgent messages come last-in first-out ahead of the normal ones first-in first-out |
| EventDevice.EventDev.Write | Living_SDK/kernel/vfs/device.c:67-105 | Keeps counters, the two disjoint lists and the exact size of every node; queues the message; a spare node is used exactly when the first one has the size |
| EventDevice.EventDev.Read | Living_SDK/kernel/vfs/device.c:127-155 | Delivers the next message of the run, cut to the length asked for; the node goes to the cache exactly while that holds fewer than four |
| EventDevice.EventDev.Close | Living_SDK/kernel/vfs/device.c:45-65 | Every node of both lists is given back once |
| EventDevice.EventDev.GetNode | Living_SDK/kernel/vfs/device.c:74-81 | Reuses a node of the right size or allocates one, on neither list |
| HistoryRing.History.HistoryInput | Living_SDK/tools/cli/cli.c:289-324 | After a line is entered the ring holds exactly the newest lines that fit 256 bytes with their terminators, with no rest of an overwritten one |
| HistoryRing.History.UpHistory | Living_SDK/tools/cli/cli.c:327-354 | Shows the line picked and picks the one before it, round from the oldest to the newest; every scan terminates |
| HistoryRing.History.DownHistory | Living_SDK/tools/cli/cli.c:356-382 | Shows the line picked and picks the one after it |
| HistoryRing.History.UpTimes | Living_SDK/tools/cli/cli.c:327-354 | Right after an input, pressing the key any number of times shows the k-th newest line at time k, and the newest again after the oldest |
| HistoryRing.UpsGoRound | Living_SDK/tools/cli/cli.c:327-354 | The line picked after k times up, in closed form |
| HistoryRing.RecentIsLongest | Living_SDK/tools/cli/cli.c:289-325 | The lines kept are the longest end of all lines ever entered that fits |
| HistoryRing.RecentStep | Living_SDK/tools/cli/cli.c:289-325 | What is kept next depends on the lines kept alone |
| HistoryRing.Entered | Living_SDK/tools/cli/cli.c:301-322 | Writing the line and wiping the rest of the line it cuts leaves that layout |
| HistoryRing.Behind | Living_SDK/tools/cli/cli.c:315-322 | The byte under the new terminator tells whether a rest has to be wiped, and where it ends |
| HistoryRing.History.Store | Living_SDK/tools/cli/cli.c:301-311 | The copy in one piece or around the end |
| HistoryRing.History.Wipe | Living_SDK/tools/cli/cli.c:315-322 | Clears up to the next terminator and nothing else |
| HistoryRing.Before | Living_SDK/tools/cli/cli.c:331-343 | What going back from a line meets |
| HistoryRing.After | Living_SDK/tools/cli/cli.c:361-371 | What going forward from a line meets |
| CronNext.CronNext | Service/timer_service/ccronexpr.c:974-1015 | For every expression with no field empty: terminates; a result is later than the date given. It meets all six fields if the day search never stalls (`Settled`), and it is then the earliest time that does (`Right`) if no month step passes over an open day (`Unskipped`) and the seconds are not late (`Hurried`). It is not `Right` from a date of which one of these fails (`Misleads`). It gives up only when nothing matches in this year and the four after it, and with one day field open goes no further than the fifth; with a number below 29 allowed as well there always is a result |
| CronNext.Unpunctual | Service/timer_service/ccronexpr.c:450-538 | The converse, which makes the three conditions exact: an expression for which one of them fails misleads the search from some date |
| CronNext.Unsettled | Service/timer_service/ccronexpr.c:503-512 | When the day search stalls at a midnight that does not match, some date has that midnight for an answer |
| CronEarliest.SkipMisses | Service/timer_service/ccronexpr.c:514-524 | When a month step can pass over an open day, some date that is no match has a match before the end of its first move |
| CronEarliest.HurryMisses | Service/timer_service/ccronexpr.c:476-512 | A search whose seconds are late passes over a match in the minute where it ends |
| CronEarliest.LandedMisses | Service/timer_service/ccronexpr.c:476-524 | Otherwise the first move of a field above the seconds passes over no match |
| CronEarliest.OpenMonthsUnskipped | Service/timer_service/ccronexpr.c:514-524 | With every month open no day is passed over |
| CronEarliest.OneSecondNotHurried | Service/timer_service/ccronexpr.c:476-481 | With one second of the minute allowed the seconds are never late |
| CronExamples.SameNumberMissed | Service/timer_service/ccronexpr.c:503-512 | For the hour 9 on a Friday the 13th the search stalls on 13 January 1970 at 09:00, at a day with the same number |
| CronExamples.UnluckyNext | Service/timer_service/ccronexpr.c:974-1015 | The run from there: the answer is 13 February 1970 at midnight, which does not match |
| CronExamples.HurriedNext | Service/timer_service/ccronexpr.c:476-491 | A run with late seconds: from 00:00:07 the answer is 00:01:10, although 00:01:05 matches |
| CronExamples.FebruaryNext | Service/timer_service/ccronexpr.c:514-524 | A run that passes over a month: for midnights of February the answer from 31 January 1970 is not before March |
| CronNext.DoNext | Service/timer_service/ccronexpr.c:450-538 | The recursion terminates, never goes back, and ends at a match or at the midnight a stalled day search leaves; without stalls it does not end before its first move, ends there at a match, and passes over no match under the two other conditions; it cannot fail with one day field open and a number below 29 |
| CronNext.DayStep | Service/timer_service/ccronexpr.c:503-512 | The day search goes forward to midnight of the day it stops at, and not past the next matching day |
| CronNext.SecondStep | Service/timer_service/ccronexpr.c:476-481 | Moving the seconds goes forward and leaves a matching time before the limit |
| CronNext.MinuteStep | Service/timer_service/ccronexpr.c:483-491 | ... so does moving the minutes with its resets |
| CronNext.HourStep | Service/timer_service/ccronexpr.c:493-501 | ... and the hours |
| CronMonths.MonthStep | Service/timer_service/ccronexpr.c:514-524 | Moving the month, with overflow of days 29 to 31 and roll-over of the year, reaches a later month, at most twelve on; from an earlier day an open month, at most eleven on |
| CronDays.NextDay | Service/timer_service/ccronexpr.c:431-448 | With no field empty some later day matches both day fields |
| CronDays.NextBoth | Service/timer_service/ccronexpr.c:431-448 | Every day number meets every weekday again after any day, the 31st included |
| CronDays.NextOpenDay | Service/timer_service/ccronexpr.c:431-448 | With one day field open some day matches within 93 days of any day |
| CronDays.OpenDaySettles | Service/timer_service/ccronexpr.c:503-512 | With one day field open the day search always stops at another number |
| CronDays.OpenDayInMonth | Service/timer_service/ccronexpr.c:514-524 | With one day field open and a number below 29 allowed, every month has a matching day before the 29th |
| CronDays.YearStart | Service/timer_service/ccronexpr.c:180-186 | The days before each year by the Gregorian rule |
| CronSearch.FindNext | Service/timer_service/ccronexpr.c:405-429 | Changes nothing on a match; otherwise the field goes to its next value, with a carry when there is none, and the lower fields listed are reset |
| CronSearch.FindNextDay | Service/timer_service/ccronexpr.c:431-448 | The first matching day within 366, or the 366th, with the resets |
| CronSearch.NextSetBit | Service/timer_service/ccronexpr.c:248-259 | The smallest member from an index on, or none |
| CronSearch.SetField | Service/timer_service/ccronexpr.c:365-399 | Sets one field and normalises |
| CronSearch.AddToField | Service/timer_service/ccronexpr.c:277-309 | Adds one unit and carries |
| CronSearch.ResetMin | Service/timer_service/ccronexpr.c:314-348 | Puts one field to its minimum |
| CronSearch.ResetAllMin | Service/timer_service/ccronexpr.c:350-363 | Puts exactly the fields listed to their minimum |
| CronSearch.PushToFieldsArr | Service/timer_service/ccronexpr.c:261-275 | Adds a field to the list unless it is there |
| CronCalendar.Tm.MkTime | Service/timer_service/ccronexpr.c:180-182 | Normalises the fields and keeps the instant |
| CronCalendar.Tm.GmTime | Service/timer_service/ccronexpr.c:184-186 | Breaks down an instant |
| CronParse.CronParseExpr | Service/timer_service/ccronexpr.c:927-972 | No error exactly when the six fields denote sets, and then the bits are exactly these sets |
| CronTexts.ExpressionDenotes | Service/timer_service/ccronexpr.c:927-972 | What an expression in numbers sets in each of its six fields, and exactly when it is refused |
| CronTexts.FieldCount | Service/timer_service/ccronexpr.c:943-947 | An expression of any other number of fields is refused |
| CronTexts.PartCount | Service/timer_service/ccronexpr.c:753-757 | ... and an item with two slashes or a range with two dashes |
| CronTexts.ListDenotes | Service/timer_service/ccronexpr.c:794-871 | A comma list is good exactly when the numbers of its items are in range and in order and every step is positive, and stands for the numbers of its items: `*`, a, a-b, and each of them by d, where `a/d` goes on to the end of the field |
| CronTexts.MonthsDenote | Service/timer_service/ccronexpr.c:873-895 | ... months from 1 on are kept from 0 on |
| CronTexts.WeekdaysDenote | Service/timer_service/ccronexpr.c:897-917 | ... and 7 is Sunday |
| CronTexts.QuestionDenotes | Service/timer_service/ccronexpr.c:897-925 | `?` leaves a day field open |
| CronTexts.MonthNamed | Service/timer_service/ccronexpr.c:873-895 | "JAN" to "DEC" are 0 to 11 |
| CronTexts.WeekdayNamed | Service/timer_service/ccronexpr.c:897-917 | "SUN" to "SAT" are 0 to 6 |
| CronNames.MonthNames | Service/timer_service/ccronexpr.c:873-895 | Names may stand for numbers anywhere in a field of months |
| CronNames.WeekdayNames | Service/timer_service/ccronexpr.c:897-917 | ... or weekdays |
| CronNames.WorkingDays | Service/timer_service/ccronexpr.c:897-917 | "MON-FRI" is 1 to 5 |
| CronTexts.HalfPastEight | Service/timer_service/ccronexpr.c:927-972 | "* 30 8 * * 1,2,3" sets just what it says |
| CronTexts.SplitJoin | Service/timer_service/ccronexpr.c:614-686 | Tokens joined by a separator are split again |
| CronTexts.BlankDropped | Service/timer_service/ccronexpr.c:632-640 | White space inside a token is dropped |
| CronTexts.EmptyDropped | Service/timer_service/ccronexpr.c:632-640 | ... and so are empty tokens |
| CronTexts.LongText | Service/timer_service/ccronexpr.c:626-629 | A text of 256 characters or more is refused |
| CronTexts.UintPrinted | Service/timer_service/ccronexpr.c:601-612 | A number printed is read back, unless it exceeds 31 bits |
| CronTexts.UintForms | Service/timer_service/ccronexpr.c:601-612 | Octal, hexadecimal and signed forms |
| CronParse.ParsedIsFilled | Service/timer_service/ccronexpr.c:927-972 | Then no field is empty and no bit is out of range |
| CronParse.SplitStr | Service/timer_service/ccronexpr.c:614-686 | The tokens are the non-blank pieces without white space; the counting and the filling pass agree |
| CronParse.Fill | Service/timer_service/ccronexpr.c:652-680 | The filling pass stays inside the array of the size counted |
| CronParse.GetRange | Service/timer_service/ccronexpr.c:728-792 | A star, a number or two numbers in range and in order; an error for all else |
| CronParse.SetNumberHits | Service/timer_service/ccronexpr.c:794-871 | Sets exactly the union of the values, ranges and stepped ranges of the list, with an error exactly when an item is malformed |
| CronParse.SetBits | Service/timer_service/ccronexpr.c:858-860 | The step loop terminates for every step and sets exactly the numbers on it, its 32-bit counter not wrapping around |
| CronParse.SetMonths | Service/timer_service/ccronexpr.c:873-895 | Months named or numbered, shifted to 0..11 |
| CronParse.SetDaysOfWeek | Service/timer_service/ccronexpr.c:897-917 | Weekdays named or numbered, 7 folded into 0 |
| CronParse.SetDaysOfMonth | Service/timer_service/ccronexpr.c:919-925 | Days of the month, `?` read as `*` |
| CronParse.StrReplace | Service/timer_service/ccronexpr.c:562-599 | Replaces all occurrences; the text has exactly the size computed from their number |
| CronParse.NameIsNumber | Service/timer_service/ccronexpr.c:688-715 | A name alone becomes its number |
| CronNames.NamesAreNumbers | Service/timer_service/ccronexpr.c:688-715 | Names that stand apart from each other become their numbers wherever they are |
| CronParse.NumbersStay | Service/timer_service/ccronexpr.c:688-715 | A text without letters stays as it is |
| CronBits.BitsAreASet | Service/timer_service/ccronexpr.c:203-226 | Setting and clearing bits is adding to and removing from a set of numbers |
| CronBits.CronSetBit | Service/timer_service/ccronexpr.c:203-208 | Adds one number |
| CronBits.CronDelBit | Service/timer_service/ccronexpr.c:210-215 | Removes one number |
| Crc.Crc16Context.Final | Living_SDK/utility/digest_algorithm/CheckSumUtils.c:85-90 | The result is the remainder of the message times x^16 by x^16 + x^12 + x^5 + 1, for every message and every split into updates |
| Crc.MessageBit | Living_SDK/utility/digest_algorithm/CheckSumUtils.c:51-67 | Which power of a message each bit of each byte is |
| Crc.Crc16Context.Update | Living_SDK/utility/digest_algorithm/CheckSumUtils.c:75-82 | The register stays the remainder of all the bytes fed so far |
| Crc.UpdateCRC16 | Living_SDK/utility/digest_algorithm/CheckSumUtils.c:51-67 | One byte: the register becomes a remainder of itself times x^8 plus the byte, whatever is left above its 16 bits |
| Crc.Crc16IsUnique | Living_SDK/utility/digest_algorithm/CheckSumUtils.c:85-90 | A message has one such result |
| Crc.Crc16Residue | Living_SDK/utility/digest_algorithm/CheckSumUtils.c:51-85 | Feeding a message and its result, high byte first, leaves the register at 0 |
| Crc.UtilsCrc32 | Living_SDK/utility/digest_algorithm/crc.c:34-50 | The result is the remainder of 32 ones ahead of the message and 32 zeros behind it by the polynomial of degree 32, given by its powers; of nothing it is 0xFFFFFFFF |
| Crc.Crc32Is | Living_SDK/utility/digest_algorithm/crc.c:34-50 | So much says `IsCrc32` |
| Crc.Crc32OfNothing | Living_SDK/utility/digest_algorithm/crc.c:11-37 | The CRC-32 of the empty message is all ones, and nothing else is |
| Crc.Crc32IsUnique | Living_SDK/utility/digest_algorithm/crc.c:34-50 | A message has one such result |
| Crc.Crc32Residue | Living_SDK/utility/digest_algorithm/crc.c:34-50 | The CRC-32 of a message followed by its CRC-32, high byte first, is 0 |
| Gf2.RemainderIsUnique | Living_SDK/utility/digest_algorithm/crc.c:33 | Division by a polynomial leaves one remainder only |
| Tickless.TicksAreExact | Living_SDK/kernel/pwrmgmt/cpu_tickless.c:159-183 | When the tick rate divides 10^6 the ticks given over any run of stops, failed ones included, are exactly the whole ticks in the time that passed |
| Tickless.RunIsExact | Living_SDK/kernel/pwrmgmt/cpu_tickless.c:173-180 | What is kept stays below one tick, and ticks given and microseconds kept add up to the time that passed |
| Tickless.ExactExactlyForDivisors | Living_SDK/kernel/pwrmgmt/cpu_tickless.c:163 | The accounting is exact for all runs if and only if the rate divides 10^6 |
| Tickless.ExactExactlyWhenFits | Living_SDK/kernel/pwrmgmt/cpu_tickless.c:173 | A stop is exact if and only if its 64-bit product does not wrap around |
| Tickless.EnterCheck | Living_SDK/kernel/pwrmgmt/cpu_tickless.c:230-296 | The deepest enabled state above C0 with a latency below the idle time is chosen, C0 if there is none; the sleep is the lesser of the idle time and 10^6 times the seconds of the timer, less the latency, in unsigned arithmetic |
| Tickless.FindState | Living_SDK/kernel/pwrmgmt/cpu_tickless.c:249-274 | The loop that clears the mask bit by bit finds that state |
| Tickless.SleepFitsExactly | Living_SDK/kernel/pwrmgmt/cpu_tickless.c:285-292 | The sleep and the latency fit in the idle time if and only if the timer can run for the latency |
| Tickless.IdleTimeBounds | Living_SDK/kernel/pwrmgmt/cpu_tickless.c:238-247 | The idle time is the time to the next kernel event, one tick early, rounded down to microseconds, while the product fits 64 bits; 100 years without an event |
| Tickless.Idle.OneShotStop | Living_SDK/kernel/pwrmgmt/cpu_tickless.c:159-183 | The ticks announced and the microseconds kept are those of the run of stops |
| Tickless.Idle.Enter | Living_SDK/kernel/pwrmgmt/cpu_tickless.c:304-385 | Chooses the state and starts the timer exactly when there is time to sleep; stops it and leaves tickless mode with the tick interrupt running and every tick announced |
| Tickless.Idle.Exit | Living_SDK/kernel/pwrmgmt/cpu_tickless.c:396-420 | The same, and nothing when not in tickless mode |
| WordBits.FindFirstBit | Living_SDK/kernel/rhino/core/include/k_bitmap.h:121-162 | The halving search finds the highest set bit |
| Ip4Text.QuadDenotes | Living_SDK/device/sal/ip4_addr.c:28-140 | Four numbers with dots are accepted exactly when each fits a byte, and then give these bytes: parsing undoes printing for every address |
| Ip4Text.PartsDenote | Living_SDK/device/sal/ip4_addr.c:28-140 | One to four numbers in decimal, octal or hexadecimal: the last one fills the bytes that are left, and each must fit its place |
| Ip4Text.TrailingText | Living_SDK/device/sal/ip4_addr.c:85-90 | White space may follow them, and nothing else |
| Ip4Text.Aton | Living_SDK/device/sal/ip4_addr.c:28-140 | The parser computes that denotation, in bases 8, 10 and 16 and with one to four parts |
| Ip4Text.NtoaR | Living_SDK/device/sal/ip4_addr.c:151-188 | Writes the text and its terminator exactly when they fit the length, NULL otherwise |
| Ip4Text.ScanQuad | Living_SDK/device/sal/sal_sockets.c:437-468 | `ipstr_to_u32` gives the same address on printed text |
| Ip4Text.ScanNumbers | Living_SDK/device/sal/sal_sockets.c:437-468 | On any four numbers of at most 15 characters it gives each modulo 256 |
| Ip4Text.IpstrToU32 | Living_SDK/device/sal/sal_sockets.c:437-468 | The loop with its 8-bit number computes that scan |
| Base64.DecodeEncode | Living_SDK/utility/base64/base64.c:41-119 | Decoding undoes encoding for every input that is not empty |
| Base64.CanonicalExactly | Living_SDK/utility/base64/base64.c:77-119 | Encoding undoes decoding exactly on the texts with proper padding and zero unused bits |
| Base64.EncodedIsCanonical | Living_SDK/utility/base64/base64.c:41-73 | Encoding delivers such a text |
| Base64.EncodedLength | Living_SDK/utility/base64/base64.c:45 | The length is four for every three bytes begun |
| Base64.AlphabetIs | Living_SDK/utility/base64/base64.c:9-18 | The 64 letters in order |
| Base64.LettersAreDigits | Living_SDK/utility/base64/base64.c:41-73 | Four letters are the four 6-bit digits of three bytes, highest first |
| Base64.EncodedMan | Living_SDK/utility/base64/base64.c:41-73 | "Man", "Ma" and "M" are "TWFu", "TWE=" and "TQ==" |
| Base64.Base64Encode | Living_SDK/utility/base64/base64.c:41-73 | The loops and the padding write the encoding of RFC 4648, section 4, and nothing beyond it |
| Base64.Base64Decode | Living_SDK/utility/base64/base64.c:77-119 | The loop writes the decoding, of the length told by the last two characters, and nothing beyond it |

## Left out

- JSON: allocation failure (codes 6 and 8), overflow of `int` in array indices, NaN, and the number text; cJSON.c's document operations are contracts on sequences of children, except `cJSON_DetachItemViaPointer`.
- JSON: patching on the heap. It is proved on trees whose objects record whether the first member has a `prev` (`stale`), which is all that detaching depends on (`JsonNodes.DetachItemViaPointer`). The generator's sorting in place is `JsonPatchTheorem.Rearranged`; the sorting that `cJSONUtils_Compare` does, also in the `test` operation, is not visible in the trees.
- Select: eventfd entries, the asynchronous send mode, close while waiting, wrap-around of `select_cb_ctr`, and the timeout arithmetic. The three claims hold for at most 255 selecting threads, which `SelectOverflow.NoLostWakeUpExactly` shows to be exact for the first.
- JSON: the six operations are stated for the pointers that RFC 6901 allows; what the code does with other texts is in `JsonPatch.Perform` only.
- SelectProof.NoWakeUpIsLost: speaks of ready counters; that a held `lastdata` also makes a socket readable is in the scans but not in the wake-up claim.
- Ports: the local address of a block, and the random number of the first call is a parameter.
- Receiving: a blocking fetch from an empty mailbox is a timeout; the destination grows as needed; the sender's address is left out.
- CronCalendar.Tm.MkTime: models a `timegm` that normalises its fields and answers the instant, as the C libraries have it. The definition at ccronexpr.c:137-142, a stub that returns 0 and leaves the fields alone, is not modelled; with it `CronNext.CronNext` would not hold.
- Cron: local time, `cron_prev`, NULL arguments, and the error code of `mktime`, which from 1970 on is never returned.
- CronNext.CronNext: with both day fields restricted, or only numbers above 28, it is not said when CRON_INVALID_INSTANT comes back.
- CronNext.DoNext: the arguments `dot` and `last` bound the search; `CronDays.NextBoth` gives a `last` for every date.
- Cron: `strtol` is modelled on texts without white space, which is all that `split_str` hands on.
- Event loop: readers and polling, the callbacks themselves, overflow of the 64-bit clock, `aos_cancel_delayed_action_loose`, and allocation failure.
- Event device: polling, the mutex, and failed allocation; reads and writes do not overlap.
- History: the line editing around it; lines have 1 to 255 characters, as the caller sees to.
- CRC-8 and `utils_crc16`, which counts bits as bytes.
- Tickless: starting the timer and setting the state are answers given from outside; a missing timer for state C1 when no state suits is not modelled; timer initialisation and the latency table are left out.
- Addresses: bytes are in network order in memory, which makes `htonl` the identity on them.
- Base64: the two tables are given by their ranges; decoding asks for a positive multiple of four characters, without which the C code reads outside its input; NULL arguments are left out.
- The file system tables, cloud and network callbacks, drivers, and hex helpers, which would add easy members only.
