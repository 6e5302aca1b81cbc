# Mentaliseren server: a verified model of its controllers and sorting core

The repository is a Unity application. An operator runs it next to a VR
headset session. It has three cores, and this project models each of them
in Dafny and proves what they promise.

- **The poll-driven session controller** (`Assets/Scripts/Server.cs`).
  - The controller talks to the headset through a web relay.
  - Every frame, `Update` either handles the reply that has arrived or sends
    a `POLL` once the poll pause is over. The pair `waitingForServer` /
    `serverReply` acts as a latch, so `Update` sends one request at a time.
    The buttons send without looking at the latch, so a press during an
    outstanding poll puts a second request in flight (see "## Findings").
  - `ProcessNetworkMessage` splits a reply on commas and dispatches on its
    second field, then on the third and fourth.
  - `ProcessButtons` maps the operator's buttons to relay commands and to
    lines of the decision log.
  - `GetSettings` reads and increments the participant number (ppn). It then
    converts five `name:value` settings lines, among them a `-`-separated list
    of scenario numbers.
- **The earlier socket-based controller** (`Backup/Server.cs`).
  - The headset sends `<verb>,<argument>` messages over a socket.
  - The buttons answer with one-word messages.
  - Before every send, the list of connections is cleaned of closed ones by
    swap-back removal.
- **NativeSort** (`Unity.Collections/NativeSort.cs` of the vendored
  collections package). It contains an in-place introsort (insertion sort,
  median-of-three partition, a heapsort fallback), a binary search that
  returns the complement of the insertion point, and a sequential k-way merge
  of sorted segments.

Modules, one per file:

| module | file | models |
|---|---|---|
| `Text` | text.dfy | `string.Split`/joining, `Convert.ToInt32`/`int.TryParse`, Int32 wrap-around, the `ushort` cast, `HH:mm:ss` time stamps, the decision-log line |
| `Ordering` | ordering.dfy | the comparer laws (a total preorder), sortedness, permutation of a range |
| `HeapOrder` | heap_order.dfy | HeapSort/Heapify as functions on sequences and their correctness proofs |
| `NativeSort` | native_sort.dfy | Swap, SwapIfGreaterWithItems, InsertionSort, Partition, HeapSort, Heapify, IntroSort, BinarySearch as methods over `array<T>` |
| `SegmentSort` | segment_sort.dfy | `SegmentSort.Execute` and `SegmentSortMerge.Execute` |
| `RelayReply` | relay_reply.dfy | the relay replies of the session controller: decoding and a canonical encoding |
| `SessionSettings` | session_settings.dfy | GetSettings of the session controller |
| `SessionController` | session_controller.dfy | the session controller's state and its frame, reply, button and start-up functions, with their properties |
| `SessionServer` | session_server.dfy | class `Server`: the session controller as imperative code, proved against `SessionController` |
| `SocketController` | socket_controller.dfy | the socket controller's state, the connection cleanup, message decoding, buttons and settings, with their properties |
| `SocketServer` | socket_server.dfy | class `Server`: the socket controller as imperative code, proved against `SocketController` |

Both `Server` classes hold the fields of their C# class. A ghost function
`Model()` gathers those fields into a state value. Every method states its
new `Model()` as a function of the old one. The properties are lemmas about
those functions.

Conventions:

- Time is integer ticks (`DateTime.Ticks`).
- The comparer is a function `(T, T) -> int` that obeys `Ordering.IsComparer`.
- Files are given as their lines.
- Outgoing requests are a sequence `outbox` (or `sent`), and the decision log
  is a sequence of lines.
- An exception the C# code does not catch is a result (`Malformed`,
  `ArgumentMissing`, `Thrown`, or a `thrown` out-parameter) that ends the
  operation where the C# would.

## Model

| member | source | states |
|---|---|---|
| Ordering.Swapped | Library/PackageCache/com.unity.collections@0.17.0-preview.18/Unity.Collections/NativeSort.cs:936-941 | the two cells are exchanged and every other cell is kept |
| Ordering.SwappedPermuted | Library/PackageCache/com.unity.collections@0.17.0-preview.18/Unity.Collections/NativeSort.cs:936-941 | exchanging two cells of a range permutes that range and leaves the rest |
| NativeSort.Swap | Library/PackageCache/com.unity.collections@0.17.0-preview.18/Unity.Collections/NativeSort.cs:936-941 | `a[lhs]` and `a[rhs]` are exchanged, nothing else changes, and the multiset is kept |
| NativeSort.SwapIfGreaterWithItems | Library/PackageCache/com.unity.collections@0.17.0-preview.18/Unity.Collections/NativeSort.cs:943-952 | afterwards `cmp(a[lhs], a[rhs]) <= 0`; the two cells are kept or exchanged; a no-op when `lhs == rhs`; other cells are unchanged; the multiset is kept |
| NativeSort.InsertionSort | Library/PackageCache/com.unity.collections@0.17.0-preview.18/Unity.Collections/NativeSort.cs:857-872 | `a[lo..hi]` (inclusive) ends sorted and a permutation of its old contents; cells outside are unchanged |
| NativeSort.InsertNext | Library/PackageCache/com.unity.collections@0.17.0-preview.18/Unity.Collections/NativeSort.cs:863-870 | one outer round: a sorted `a[lo..i]` becomes a sorted permutation `a[lo..i+1]` |
| NativeSort.Partition | Library/PackageCache/com.unity.collections@0.17.0-preview.18/Unity.Collections/NativeSort.cs:874-898 | returns `p` with `lo <= p < hi`; everything in `[lo, p)` is at most `a[p]` and everything in `(p, hi]` at least `a[p]`; the range is permuted and nothing outside changes |
| NativeSort.MedianOfThree | Library/PackageCache/com.unity.collections@0.17.0-preview.18/Unity.Collections/NativeSort.cs:876-882 | after the three compare-exchanges and the swap, the pivot sits at `hi - 1` with `a[lo] <= pivot <= a[hi]`, which are the sentinels of the scans |
| NativeSort.ExchangeAroundPivot | Library/PackageCache/com.unity.collections@0.17.0-preview.18/Unity.Collections/NativeSort.cs:883-894 | the scan-and-swap loop stops at `left` in `[lo, hi-1]` with everything before `left` at most the pivot and everything from `left` on at least the pivot; the range is permuted |
| NativeSort.ScanUp | Library/PackageCache/com.unity.collections@0.17.0-preview.18/Unity.Collections/NativeSort.cs:887 | the upward scan stays below `right`, stops at a cell not below the pivot, and passes only cells at most the pivot |
| NativeSort.ScanDown | Library/PackageCache/com.unity.collections@0.17.0-preview.18/Unity.Collections/NativeSort.cs:888 | the downward scan stays at or above `left - 1`, stops at a cell not above the pivot, and passes only cells at least the pivot |
| NativeSort.PartitionFinish | Library/PackageCache/com.unity.collections@0.17.0-preview.18/Unity.Collections/NativeSort.cs:896-897 | the final swap puts the pivot at `left`, with the range split around it and permuted |
| NativeSort.HeapSort | Library/PackageCache/com.unity.collections@0.17.0-preview.18/Unity.Collections/NativeSort.cs:900-914 | `a[lo..hi]` ends sorted and a permutation of its old contents |
| NativeSort.BuildHeapPhase | Library/PackageCache/com.unity.collections@0.17.0-preview.18/Unity.Collections/NativeSort.cs:904-907 | the first loop leaves `HeapOrder.BuildHeap` of the old array |
| NativeSort.SortDownPhase | Library/PackageCache/com.unity.collections@0.17.0-preview.18/Unity.Collections/NativeSort.cs:909-913 | the second loop leaves `HeapOrder.SortDown` of the old array |
| NativeSort.Heapify | Library/PackageCache/com.unity.collections@0.17.0-preview.18/Unity.Collections/NativeSort.cs:916-934 | leaves `HeapOrder.Sift` of the old array: the value at node `i` sinks below every larger child |
| HeapOrder.Sift | Library/PackageCache/com.unity.collections@0.17.0-preview.18/Unity.Collections/NativeSort.cs:916-934 | Heapify on sequences; it keeps the length, and SiftCorrect/HeapifyCorrect state what it achieves |
| HeapOrder.LargerChild | Library/PackageCache/com.unity.collections@0.17.0-preview.18/Unity.Collections/NativeSort.cs:922-926 | the child Heapify picks is `2i`, or `2i+1` when it exists; it is a child of the node |
| HeapOrder.LargerChildIsLargest | Library/PackageCache/com.unity.collections@0.17.0-preview.18/Unity.Collections/NativeSort.cs:922-926 | that child sorts no earlier than either child |
| HeapOrder.Parent | Library/PackageCache/com.unity.collections@0.17.0-preview.18/Unity.Collections/NativeSort.cs:922 | every cell after the root has a parent before it whose child it is |
| HeapOrder.SiftDescends | Library/PackageCache/com.unity.collections@0.17.0-preview.18/Unity.Collections/NativeSort.cs:920-931 | one loop round: when the larger child does not sort before the value, the rest of the sift continues from that child |
| HeapOrder.SiftStops | Library/PackageCache/com.unity.collections@0.17.0-preview.18/Unity.Collections/NativeSort.cs:927-933 | the sift ends, with the value in the hole, past the middle or when the larger child sorts before the value |
| HeapOrder.SiftCorrect | Library/PackageCache/com.unity.collections@0.17.0-preview.18/Unity.Collections/NativeSort.cs:916-934 | from its loop invariant, the sift leaves a heap from node `from` on and a permutation |
| HeapOrder.HeapifyCorrect | Library/PackageCache/com.unity.collections@0.17.0-preview.18/Unity.Collections/NativeSort.cs:916-934 | Heapify at node `i`, over a heap below `i`, extends the heap to `i` and permutes the cells (the multiset is kept) |
| HeapOrder.HeapifyStep | Library/PackageCache/com.unity.collections@0.17.0-preview.18/Unity.Collections/NativeSort.cs:930-931 | moving the larger child up into the hole keeps Heapify's loop invariant |
| HeapOrder.HeapifyPlace | Library/PackageCache/com.unity.collections@0.17.0-preview.18/Unity.Collections/NativeSort.cs:933 | dropping the value into the hole completes the heap and the permutation |
| HeapOrder.BuildHeap | Library/PackageCache/com.unity.collections@0.17.0-preview.18/Unity.Collections/NativeSort.cs:904-907 | HeapSort's first loop on sequences; it keeps the length, and BuildHeapCorrect states what it achieves |
| HeapOrder.BuildHeapCorrect | Library/PackageCache/com.unity.collections@0.17.0-preview.18/Unity.Collections/NativeSort.cs:904-907 | the first loop leaves a max-heap and a permutation |
| HeapOrder.HeapRoot | Library/PackageCache/com.unity.collections@0.17.0-preview.18/Unity.Collections/NativeSort.cs:911 | the root of a max-heap sorts no earlier than any of its cells |
| HeapOrder.HeapSortExtract | Library/PackageCache/com.unity.collections@0.17.0-preview.18/Unity.Collections/NativeSort.cs:911 | swapping the root to the end grows the sorted suffix, keeps it above the rest, and permutes |
| HeapOrder.SortDown | Library/PackageCache/com.unity.collections@0.17.0-preview.18/Unity.Collections/NativeSort.cs:909-913 | HeapSort's second loop on sequences; it keeps the length, and SortDownCorrect states what it achieves |
| HeapOrder.SortDownStep | Library/PackageCache/com.unity.collections@0.17.0-preview.18/Unity.Collections/NativeSort.cs:911-912 | one round of the second loop keeps the heap, the sorted suffix above it, and the permutation |
| HeapOrder.SortDownCorrect | Library/PackageCache/com.unity.collections@0.17.0-preview.18/Unity.Collections/NativeSort.cs:909-913 | the second loop turns a max-heap into a sorted permutation |
| HeapOrder.HeapSortCorrect | Library/PackageCache/com.unity.collections@0.17.0-preview.18/Unity.Collections/NativeSort.cs:900-914 | both loops together sort `s[lo..hi]` and permute it |
| NativeSort.Log2Floor | Library/PackageCache/com.unity.collections@0.17.0-preview.18/Unity.Collections/NativeSort.cs:812 | the depth budget's logarithm: `-1` exactly for 0, otherwise `2^r <= n < 2^(r+1)` |
| NativeSort.IntroSort | Library/PackageCache/com.unity.collections@0.17.0-preview.18/Unity.Collections/NativeSort.cs:810-813 | `a[0..length)` ends sorted under the comparer and a permutation of the input; the cells beyond are unchanged |
| NativeSort.IntroSortRange | Library/PackageCache/com.unity.collections@0.17.0-preview.18/Unity.Collections/NativeSort.cs:816-855 | `a[lo..hi]` ends sorted and permuted; small ranges go to SmallSort, an exhausted budget to HeapSort, and it terminates because the range shrinks on every round and call |
| NativeSort.SmallSort | Library/PackageCache/com.unity.collections@0.17.0-preview.18/Unity.Collections/NativeSort.cs:821-841 | the ranges of at most 16 cells (one cell, two, three by compare-exchanges, otherwise insertion sort) end sorted and permuted |
| NativeSort.IntroSortStep | Library/PackageCache/com.unity.collections@0.17.0-preview.18/Unity.Collections/NativeSort.cs:851-853 | after the partition and the recursive sort of `(p, hi]`, the suffix from `p` is sorted and everything before `p` is below it |
| NativeSort.IntroSortFinish | Library/PackageCache/com.unity.collections@0.17.0-preview.18/Unity.Collections/NativeSort.cs:818-854 | once the loop has sorted the prefix, the whole range is sorted and permuted |
| NativeSort.BinarySearch | Library/PackageCache/com.unity.collections@0.17.0-preview.18/Unity.Collections/NativeSort.cs:148-193 | on sorted input: a non-negative `r` is an index with `cmp(value, a[r]) == 0`; otherwise `~r` lies in `[0, length]`, with everything before it below `value` and everything from it above; the result is negative exactly when no element equals `value` |
| NativeSort.SearchAbove | Library/PackageCache/com.unity.collections@0.17.0-preview.18/Unity.Collections/NativeSort.cs:185-189 | when `value` sorts after `a[idx]`, it sorts after every element up to `idx` |
| NativeSort.SearchBelow | Library/PackageCache/com.unity.collections@0.17.0-preview.18/Unity.Collections/NativeSort.cs:179-190 | when `value` sorts before `a[idx]`, it sorts before every element from `idx` on |
| SegmentSort.SegmentCount | Library/PackageCache/com.unity.collections@0.17.0-preview.18/Unity.Collections/NativeSort.cs:988 | `(Length + Width - 1) / Width` segments cover the data: `length <= c * width < length + width` |
| SegmentSort.SegmentLength | Library/PackageCache/com.unity.collections@0.17.0-preview.18/Unity.Collections/NativeSort.cs:966-971 | a segment holds `min(Width, Length - start)` cells, between 1 and `Width`, ending at the next segment or at `Length` |
| SegmentSort.SortSegment | Library/PackageCache/com.unity.collections@0.17.0-preview.18/Unity.Collections/NativeSort.cs:966-971 | segment `index` ends sorted and a permutation of itself; nothing else changes |
| SegmentSort.Split | Library/PackageCache/com.unity.collections@0.17.0-preview.18/Unity.Collections/NativeSort.cs:999-1003 | the segments concatenate back to the data; there are none exactly when the data is empty |
| SegmentSort.SegmentIsPiece | Library/PackageCache/com.unity.collections@0.17.0-preview.18/Unity.Collections/NativeSort.cs:1001-1007 | segment `i` is `data[i*width .. i*width + SegmentLength]`, and there are SegmentCount of them |
| SegmentSort.SortedSegmentsArePieces | Library/PackageCache/com.unity.collections@0.17.0-preview.18/Unity.Collections/NativeSort.cs:966-971 | segments each sorted in place, as SortSegment leaves them, make every piece of `Split` sorted, which MergeSegments requires |
| SegmentSort.MergeSegments | Library/PackageCache/com.unity.collections@0.17.0-preview.18/Unity.Collections/NativeSort.cs:986-1023 | when every segment is sorted, `data[0..Length)` ends sorted and a permutation of the input |
| SegmentSort.MergeIntoCopy | Library/PackageCache/com.unity.collections@0.17.0-preview.18/Unity.Collections/NativeSort.cs:988-1020 | the merge loop fills a fresh `resultCopy` with a sorted arrangement of the same multiset as the data |
| SegmentSort.MergeRound | Library/PackageCache/com.unity.collections@0.17.0-preview.18/Unity.Collections/NativeSort.cs:994-1019 | one round appends the next value and advances one cursor; the merged prefix stays sorted and at most every value left |
| SegmentSort.FindNextBest | Library/PackageCache/com.unity.collections@0.17.0-preview.18/Unity.Collections/NativeSort.cs:995-1016 | the scan returns -1 exactly when every segment is used up; otherwise it returns a segment whose head is its value and sorts no later than any other head |
| SegmentSort.ConsiderSegment | Library/PackageCache/com.unity.collections@0.17.0-preview.18/Unity.Collections/NativeSort.cs:1004-1015 | looking at segment `i` extends the best-so-far over the first `i + 1` segments; segment `i`'s head is taken exactly when the segment is not exhausted and there is no best yet or the head does not sort after it, so a later head that sorts equal replaces the earlier one |
| SegmentSort.ReadHead | Library/PackageCache/com.unity.collections@0.17.0-preview.18/Unity.Collections/NativeSort.cs:1001-1007 | the segment is exhausted exactly when its cursor is at its end, and otherwise the value read is the segment's head |
| SegmentSort.Record | Library/PackageCache/com.unity.collections@0.17.0-preview.18/Unity.Collections/NativeSort.cs:1018-1019 | the chosen cursor advances by one and the value lands at `resultCopy[sortIndex]` |
| SegmentSort.CopyBack | Library/PackageCache/com.unity.collections@0.17.0-preview.18/Unity.Collections/NativeSort.cs:1022 | the first `Length` cells become the copy and the rest of the data is kept |
| SegmentSort.MergeStep | Library/PackageCache/com.unity.collections@0.17.0-preview.18/Unity.Collections/NativeSort.cs:1018-1019 | taking the best head keeps the merge invariant (sorted prefix, taken multiset, rest above) |
| SegmentSort.MergeKeepsOrder | Library/PackageCache/com.unity.collections@0.17.0-preview.18/Unity.Collections/NativeSort.cs:1019 | appending the best head keeps the merged prefix sorted |
| SegmentSort.AllMerged | Library/PackageCache/com.unity.collections@0.17.0-preview.18/Unity.Collections/NativeSort.cs:993-1020 | when every cursor is at its segment's end, the merged values are the data's multiset |
| SegmentSort.MergeFinish | Library/PackageCache/com.unity.collections@0.17.0-preview.18/Unity.Collections/NativeSort.cs:1022 | copying a sorted permutation back leaves the data sorted and permuted |
| Text.Split | Assets/Scripts/Server.cs:107 | `string.Split` gives at least one piece |
| Text.SplitCount | Assets/Scripts/Server.cs:107 | there is one piece more than there are separators |
| Text.JoinSplit | Assets/Scripts/Server.cs:107 | joining the pieces with the separator gives the string back |
| Text.SplitPiecesFree | Assets/Scripts/Server.cs:107 | no piece holds the separator |
| Text.SplitJoin | Assets/Scripts/Server.cs:107 | splitting a join of separator-free pieces gives the pieces back |
| Text.Field | Assets/Scripts/Server.cs:107 | `elements[k]` exists exactly when there are more than `k` pieces, and then it is piece `k` |
| Text.FormatNatValue | Assets/Scripts/Server.cs:367 | the decimal text of `n` is all digits and reads back as `n` |
| Text.ParseFormat | Assets/Scripts/Server.cs:410-413 | `Convert.ToInt32` reads back every Int32 the program writes |
| Text.ParseRejectsNonDigits | Assets/Scripts/Server.cs:410 | a text holding a non-space that is neither digit nor sign is refused |
| Text.ReadLine | Assets/Scripts/Server.cs:408 | a line is there exactly when the file has that many lines |
| Text.ReadInt32Line | Assets/Scripts/Server.cs:408-410 | a number read from a file's first line is an Int32 (a missing line reads as 0) |
| Text.Increment | Assets/Scripts/Server.cs:411 | `ppn++` on an Int32 wraps from MaxInt32 to MinInt32 and otherwise adds one |
| Text.ToUshort | Backup/Server.cs:395 | the `ushort` cast gives a value in `[0, 65536)` congruent to the number modulo 2^16 |
| Text.UshortKeeps | Backup/Server.cs:395 | the cast keeps a value that fits, and ignores multiples of 2^16 |
| Text.ClockReadBack | Assets/Scripts/Server.cs:367 | `HH:mm:ss` is eight characters with colons at 2 and 5, and its fields read back as the hour, minute and second, which together give the second of the day |
| Text.ClockFields | Assets/Scripts/Server.cs:367 | the clock text is three two-digit fields that read back as their values |
| Text.TimeOfDay | Assets/Scripts/Server.cs:367 | hour, minute and second are the second of the day |
| Text.LogLineFields | Assets/Scripts/Server.cs:367 | a decision-log line splits back into time, ppn, scenario, step and decision when those hold no comma |
| Text.ParseInt32 | Assets/Scripts/Server.cs:410 | `Convert.ToInt32`: white space, an optional sign and decimal digits within the Int32 range, and an exception (None) for anything else; ParseFormat and ParseRejectsNonDigits state both sides |
| Text.Wrap32 | Assets/Scripts/Server.cs:411 | unchecked Int32 arithmetic, the value modulo 2^32 read as two's complement; Increment states what `ppn++` gives |
| Text.FormatClock | Assets/Scripts/Server.cs:367 | `DateTime.Now.ToString("HH:mm:ss")`; ClockReadBack, ClockFields and TimeOfDay state its layout and that it reads back as the time of day |
| Text.LogLine | Assets/Scripts/Server.cs:365-368 | the line WriteLogLine writes; LogLineFields states that it splits back into its five fields |
| RelayReply.DecodeEncode | Assets/Scripts/Server.cs:86-259 | decoding inverts encoding for every reply whose texts hold no comma |
| RelayReply.Dispatch | Assets/Scripts/Server.cs:108-257 | the nested switches on `elements[1]`, `[2]` and `[3]`; MalformedExactly, DispatchReadsFiveFields, DispatchIgnoresFirst and DispatchEncoded state which fields it reads, when it throws and that every reaction is reached |
| RelayReply.Decode | Assets/Scripts/Server.cs:107-108 | `msg.Split(',')` and the dispatch; DecodeEncode, DecodeJoin, DecodeEmpty and FirstFieldIgnored state how replies decode |
| RelayReply.DispatchEncoded | Assets/Scripts/Server.cs:108-257 | every reaction is reached by its canonical field list |
| RelayReply.DecodeJoin | Assets/Scripts/Server.cs:107-108 | decoding comma-free fields joined by commas dispatches on those fields |
| RelayReply.MalformedExactly | Assets/Scripts/Server.cs:107-257 | a reply throws exactly when it has fewer than two fields, a POLL lacks its third field, a POLL CMD/TXT lacks its fourth, a known TXT kind lacks its text, or a GEN lacks its third field |
| RelayReply.DecodeEmpty | Assets/Scripts/Server.cs:107-108 | the empty reply throws |
| RelayReply.DispatchReadsFiveFields | Assets/Scripts/Server.cs:107-257 | fields after the fifth are never read |
| RelayReply.DispatchIgnoresFirst | Assets/Scripts/Server.cs:108 | dispatch is on the second field: the first never matters |
| RelayReply.FirstFieldIgnored | Assets/Scripts/Server.cs:108 | two replies that differ only in a comma-free first field decode the same |
| RelayReply.TextKeepsFieldFour | Assets/Scripts/Server.cs:186-203 | a TXT reply whose text is followed by more commas keeps only the fifth field |
| RelayReply.AcknowledgementErrorIgnored | Assets/Scripts/Server.cs:117-254 | `CMD,<verb>,ERROR` for INIT, START, POS, NEG and GEN resets the poll timer like the OK reply: the `elements[1] == "ERROR"` checks never fire |
| SessionSettings.ScenarioListCheck | Assets/Scripts/Server.cs:489-500 | the loop accepts exactly when every `-`-separated piece is an Int32 |
| SessionSettings.ToFloatText | Assets/Scripts/Server.cs:433-459 | a float setting converts exactly when its text is one the conversion accepts |
| SessionSettings.AssignKeepsPpn | Assets/Scripts/Server.cs:416-511 | the settings lines never change the participant number |
| SessionSettings.Assign | Assets/Scripts/Server.cs:416-511 | the assignment each try block makes, the scenario list before its check; AssignKeepsPpn, ReadSettingsAssigns and ValidSettingsApplied state what lands where |
| SessionSettings.ReadSettingsFrom | Assets/Scripts/Server.cs:416-511 | a failing line is one of the five |
| SessionSettings.ReadSettingsFailure | Assets/Scripts/Server.cs:416-511 | the reading fails exactly when some line is invalid, at the first such line; ppn is untouched |
| SessionSettings.ReadSettingsAssigns | Assets/Scripts/Server.cs:416-511 | every line up to and including the first failing one makes its assignment, and no later line does |
| SessionSettings.ValidSettingsApplied | Assets/Scripts/Server.cs:416-511 | valid settings set server number, polling interval, button timeout, question timeout and scenarios from lines one to five |
| SessionSettings.LoadSettings | Assets/Scripts/Server.cs:404-513 | a failure names one of the five lines |
| SessionSettings.LoadSettingsSteps | Assets/Scripts/Server.cs:404-513 | GetSettings is the ppn step followed by the five settings lines |
| SessionSettings.PpnIncremented | Assets/Scripts/Server.cs:407-414 | a readable ppn file gives the next participant number (wrapping at MaxInt32), which is written back |
| SessionSettings.LoadOutcome | Assets/Scripts/Server.cs:404-513 | ppn goes up by one; the settings fail exactly when one of the five lines does, at the first such line |
| SessionSettings.ConsecutiveParticipants | Assets/Scripts/Server.cs:407-414 | the number written by one start-up is read by the next, which continues the count |
| SessionController.Initial | Assets/Scripts/Server.cs:21-31 | the controller starts idle: no request outstanding, no reply, no abort, nothing sent or logged |
| SessionController.ButtonOf | Assets/Scripts/Server.cs:264-359 | the case labels of ProcessButtons; DecisionNamesButton and ReactionsDistinct state the table read backwards |
| SessionController.React | Assets/Scripts/Server.cs:110-257 | what ProcessNetworkMessage does for each readable reply; ReactOutbox, PayloadKeepsTimer, TextsStored and EndStopsPolling state its effects |
| SessionController.PollIfDue | Assets/Scripts/Server.cs:74-78 | the second half of Update; PollWhenDue states when it polls |
| SessionController.Tick | Assets/Scripts/Server.cs:59-80 | one Update; AbortFreezes, LatchHoldsPolls, OneRequestPerFrame and ReplyHandledOnce state what a frame may do |
| SessionController.Step | Assets/Scripts/Server.cs:66-79 | a frame of a running session; ReplyConsumed and ResetTimerPausesPolling state how it handles a reply |
| SessionController.Press | Assets/Scripts/Server.cs:260-363 | ProcessButtons; ReactionLogged, OnlyReactionsLog, PressClosesLatch and PressSendsOnce state what a press sends, logs and latches |
| SessionController.Receive | Assets/Scripts/Server.cs:376-397 | the end of SendToServer's request; DeliverOnlyFillsReply states its two outcomes |
| SessionController.Begin | Assets/Scripts/Server.cs:35-58 | Start; StartAcceptsExactly and BadPpnStopsStart state when the session runs |
| SessionController.PressSendsOnce | Assets/Scripts/Server.cs:260-363 | a press sends at most one request, keeps the earlier ones, and leaves the controller waiting with `serverReply` cleared |
| SessionController.FrameSendWaits | Assets/Scripts/Server.cs:59-80 | a frame that sends a request (POLL or QUIT) leaves the controller waiting for its reply |
| SessionController.PressDuringPoll | Assets/Scripts/Server.cs:260-285 | a reaction pressed after a due poll sends POS as a second request while the poll is unanswered |
| SessionController.EndLostAfterPress | Assets/Scripts/Server.cs:59-85 | with POS pressed during a poll and acknowledged first, the poll's END reply arrives with the latch open and is cleared by the next POLL: the end screen and QUIT never happen |
| SessionController.TwoInFlight | Assets/Scripts/Server.cs:260-285 | as written, a due frame and a reaction press leave two requests in flight, breaking OneInFlight |
| SessionController.PressWhenIdle | Assets/Scripts/Server.cs:260-263 | the corrected press: while waiting, a button other than Quit sends nothing and keeps a delivered reply; it sends at most one request and then waits |
| SessionController.StartInFlight | Assets/Scripts/Server.cs:35-58 | Start leaves at most its INIT request in flight, with the controller waiting for it |
| SessionController.OneInFlightKept | Assets/Scripts/Server.cs:59-85 | with the corrected press, frames, presses and completions keep at most one request in flight, and the controller waits while one is |
| SessionController.LatchHoldsPolls | Assets/Scripts/Server.cs:66-79 | while a request is outstanding and no reply has arrived, a frame sends nothing and changes nothing but the abort display |
| SessionController.PollWhenDue | Assets/Scripts/Server.cs:74-85 | with the latch open, a frame polls exactly when more than the polling interval has passed, and then closes the latch behind the single POLL |
| SessionController.ReplyHandledOnce | Assets/Scripts/Server.cs:68-73 | after any frame of a running session the controller never waits on a reply it already holds, so no reply is handled twice |
| SessionController.ReplyConsumed | Assets/Scripts/Server.cs:68-73 | a readable reply is handled by the frame that sees it and `serverReply` is cleared |
| SessionController.ReactOutbox | Assets/Scripts/Server.cs:86-259 | only the end of the session sends something (QUIT, closing the latch); every reaction keeps the configuration |
| SessionController.OneRequestPerFrame | Assets/Scripts/Server.cs:59-80 | each frame sends at most one request: a POLL, or QUIT |
| SessionController.AbortFreezes | Assets/Scripts/Server.cs:61-66 | after an abort the message is shown once, no request goes out, no reply is handled, and further frames change nothing |
| SessionController.ResetTimerPausesPolling | Assets/Scripts/Server.cs:136-141 | an empty poll or acknowledgement restarts the pause and nothing else; no poll goes out for the next interval |
| SessionController.PayloadKeepsTimer | Assets/Scripts/Server.cs:144-204 | a poll carrying a command or text does not restart the pause |
| SessionController.EndStopsPolling | Assets/Scripts/Server.cs:175-183 | `POLL,CMD,END` shows the end screen and sends `<room>,CMD,QUIT`, after which no frame sends anything |
| SessionController.TextsStored | Assets/Scripts/Server.cs:186-203 | `TXT,SC` and `TXT,STP` store their text in `scenario`/`stap`; `VO` and `LARS` only change display text |
| SessionController.ReactionLogged | Assets/Scripts/Server.cs:280-367 | a reaction button sends its command, hides the reactions and logs exactly one line that splits back into time, ppn, scenario, step and decision |
| SessionController.OnlyReactionsLog | Assets/Scripts/Server.cs:262-327 | no other button writes to the log; Start sends `CMD,START` and shows the info panel |
| SessionController.DecisionNamesButton | Assets/Scripts/Server.cs:280-327 | the button table read backwards: each reaction's decision names its button and holds no comma |
| SessionController.ReactionsDistinct | Assets/Scripts/Server.cs:280-327 | distinct reaction buttons log distinct decisions |
| SessionController.PressClosesLatch | Assets/Scripts/Server.cs:262-359 | every press, quit and unknown buttons included, closes the latch; those send nothing, so no frame sends until a reply arrives |
| SessionController.DeliverOnlyFillsReply | Assets/Scripts/Server.cs:376-397 | a delivered reply only fills `serverReply`; a failed request shows the time-out text and the Quit button |
| SessionController.StartAcceptsExactly | Assets/Scripts/Server.cs:404-513 | on a readable ppn file the session runs (log open, INIT its only request) exactly when every settings line converts; otherwise it aborts with the first failing line's message and sends nothing |
| SessionController.StartedOutcome | Assets/Scripts/Server.cs:37-57 | Start after GetSettings: it aborts exactly on a failed line; otherwise the log opens and INIT goes out |
| SessionController.BadPpnStopsStart | Assets/Scripts/Server.cs:404-410 | a ppn file that is not a number stops Start before anything happens |
| SessionServer.Server.constructor | Assets/Scripts/Server.cs:21-31 | the fields start as `SessionController.Initial` |
| SessionServer.Server.PrepServerResponse | Assets/Scripts/Server.cs:81-85 | opens a wait for a fresh reply |
| SessionServer.Server.SendToServer | Assets/Scripts/Server.cs:369-374 | the request goes out |
| SessionServer.Server.CompleteRequest | Assets/Scripts/Server.cs:376-397 | the request's result is `SessionController.Receive` |
| SessionServer.Server.AbortApp | Assets/Scripts/Server.cs:399-403 | shows the abort message on the error panel |
| SessionServer.Server.AbortProgram | Assets/Scripts/Server.cs:514-523 | the application quits |
| SessionServer.Server.WriteLogLine | Assets/Scripts/Server.cs:365-368 | appends the `HH:mm:ss,ppn,scenario,stap,decision` line when the log is open |
| SessionServer.Server.ProcessNetworkMessage | Assets/Scripts/Server.cs:86-259 | throws exactly on a malformed reply, changing nothing; otherwise the new state is `React` of the decoded reply |
| SessionServer.Server.Act | Assets/Scripts/Server.cs:108-257 | the switch applies `React` |
| SessionServer.Server.ActRelay | Assets/Scripts/Server.cs:110-257 | the relay-level cases apply `React` |
| SessionServer.Server.ActText | Assets/Scripts/Server.cs:186-204 | the TXT cases apply `React` |
| SessionServer.Server.StoreText | Assets/Scripts/Server.cs:192-199 | the SC and STP cases apply `React` |
| SessionServer.Server.ActEnd | Assets/Scripts/Server.cs:147-183 | ABORT and END apply `React` |
| SessionServer.Server.ActPanel | Assets/Scripts/Server.cs:154-174 | READY, PAUSE, RPS and NEW apply `React` |
| SessionServer.Server.ShowEnd | Assets/Scripts/Server.cs:150-180 | hides the info panel and shows the end text and the Quit button |
| SessionServer.Server.Update | Assets/Scripts/Server.cs:59-80 | one frame is `SessionController.Tick` |
| SessionServer.Server.Frame | Assets/Scripts/Server.cs:66-79 | a frame of a running session is `SessionController.Step` |
| SessionServer.Server.HandleReply | Assets/Scripts/Server.cs:68-73 | the latch opens before the reply is processed; the reply throws exactly when malformed, and otherwise is handled and cleared |
| SessionServer.Server.Poll | Assets/Scripts/Server.cs:74-78 | polls exactly when idle and the pause is over |
| SessionServer.Server.ProcessButtons | Assets/Scripts/Server.cs:260-364 | a press is `SessionController.Press` of the button its name selects |
| SessionServer.Server.Respond | Assets/Scripts/Server.cs:280-327 | a reaction sends its command, hides the reactions, records the decision and logs |
| SessionServer.Server.GetSettings | Assets/Scripts/Server.cs:404-513 | the new state is `ApplySettings` of `LoadSettings` |
| SessionServer.Server.ApplySettingsFile | Assets/Scripts/Server.cs:416-511 | the five try blocks leave `ReadSettingsFrom` and its failure |
| SessionServer.Server.ReadSettings | Assets/Scripts/Server.cs:416-511 | the five try blocks, in order, stopping at the first failure, compute `ReadSettingsFrom` |
| SessionServer.Server.TrySetting | Assets/Scripts/Server.cs:416-511 | one try block succeeds exactly when its line is valid, and makes its assignment |
| SessionServer.Server.Start | Assets/Scripts/Server.cs:35-58 | Start is `SessionController.Begin` |
| SessionServer.Server.OpenSession | Assets/Scripts/Server.cs:38-57 | unless aborted, opens the log and sends INIT; then hides the panels |
| SocketController.RemoveAtSwapBack | Backup/Server.cs:240 | the last connection moves into slot `i` and the list shrinks by one; the rest keep their slots |
| SocketController.CleanUpFrom | Backup/Server.cs:236-243 | the cleanup loop from index `i`; CleanUpFromSpec states its invariant |
| SocketController.CleanUp | Backup/Server.cs:233-243 | the whole cleanup; CleanUpKeepsCreated, CleanUpIdempotent and CleanUpReorders state its result against the `Created` reference |
| SocketController.CleanUpFromSpec | Backup/Server.cs:236-243 | the loop keeps its invariant: the examined prefix is all created, and the created connections keep their multiset |
| SocketController.CleanUpKeepsCreated | Backup/Server.cs:236-243 | after the cleanup no closed connection remains and the created ones are all there, each as often as before |
| SocketController.CleanUpIdempotent | Backup/Server.cs:236-243 | a list of created connections is left alone, so cleaning twice is cleaning once |
| SocketController.CleanUpReorders | Backup/Server.cs:240-241 | swap-back removal reorders: `[closed, C1, C2]` becomes `[C2, C1]` |
| SocketController.DecodeEncode | Backup/Server.cs:164-217 | decoding inverts encoding for every message whose text holds no comma |
| SocketController.Dispatch | Backup/Server.cs:167-216 | the switch on `elements[0]`; DispatchEncoded, DecodeVerb and VerbAlone state what it reaches and when it throws |
| SocketController.Decode | Backup/Server.cs:166-167 | `msg.Split(',')` and the switch; DecodeEncode states that it inverts the canonical encoding |
| SocketController.DispatchEncoded | Backup/Server.cs:167-216 | every message kind is reached by its canonical fields |
| SocketController.DecodeVerb | Backup/Server.cs:166-167 | `<verb>,<argument>` dispatches on the verb, followed by the pieces of the argument |
| SocketController.VerbAlone | Backup/Server.cs:166-215 | a verb that reads its argument throws without one; `alive` and unknown verbs read nothing |
| SocketController.Initial | Backup/Server.cs:21-39 | no connections, ppn 0, port 9000, nothing sent or logged |
| SocketController.Receive | Backup/Server.cs:164-217 | ProcessNetworkMessage for a decoded message; ReceiveFrame, ReceiveStores, ScenarioStored, StepStored, ReactionToggles, EndMessage and AliveAndUnknown state each case |
| SocketController.ReceiveFrame | Backup/Server.cs:164-217 | receiving never sends, logs, touches the connections or settings, or changes the decision |
| SocketController.ReceiveStores | Backup/Server.cs:173-213 | only `scenario` and `step` change the logged scenario and step, and only `alive` the keep-alive time |
| SocketController.ScenarioStored | Backup/Server.cs:173-176 | `scenario,<n>` stores its argument in `scenario` and shows it; the step is kept |
| SocketController.StepStored | Backup/Server.cs:180-183 | `step,<n>` stores its argument in `stap` and shows it; the scenario is kept |
| SocketController.ReactionToggles | Backup/Server.cs:187-196 | `reaction,<x>` shows the reactions panel exactly when `x` is `true` and changes nothing else |
| SocketController.EndMessage | Backup/Server.cs:197-210 | `end,new` clears the scenario, step and Lars texts; any other `end` hides the info panel and shows the end of the session |
| SocketController.AliveAndUnknown | Backup/Server.cs:211-215 | `alive` only refreshes the keep-alive time; an unknown verb changes nothing |
| SocketController.ReactionNamesButton | Backup/Server.cs:276-315 | each reaction's decision names its button and holds no comma |
| SocketController.ReactionsDistinct | Backup/Server.cs:276-315 | distinct reaction buttons log distinct decisions |
| SocketController.Send | Backup/Server.cs:218-232 | SendNetworkData: cleans the connections and records the message; PressSends states what each button sends |
| SocketController.Press | Backup/Server.cs:260-331 | ProcessButtons; PressLogs, PressSends and ReactionLogged state what each button logs and sends |
| SocketController.PressLogs | Backup/Server.cs:262-330 | every button but Start and Quit, unrecognised names included, writes exactly one log line; earlier lines stay |
| SocketController.PressSends | Backup/Server.cs:265-315 | Start sends `start`, a reaction its message (`positive`, `negative`, `generic1`..`generic6`), anything else nothing |
| SocketController.ReactionLogged | Backup/Server.cs:276-335 | a reaction's log line splits into time, ppn, scenario, step and the decision that names the button |
| SocketController.Settings | Backup/Server.cs:380-396 | GetSettings; SettingsPpn, SettingsPort and ConsecutiveRuns state the new ppn, the port and when it throws |
| SocketController.SettingsPpn | Backup/Server.cs:383-390 | ppn goes up by exactly one (wrapping at MaxInt32) and is written back; an unreadable ppn file changes nothing |
| SocketController.SettingsPort | Backup/Server.cs:392-395 | the port is the number modulo 2^16, equal to it when it fits; an unreadable port file keeps the old port |
| SocketController.ConsecutiveRuns | Backup/Server.cs:383-390 | consecutive runs get consecutive participant numbers |
| SocketServer.Server.constructor | Backup/Server.cs:21-39 | the fields start as `SocketController.Initial` |
| SocketServer.Server.GetSettings | Backup/Server.cs:380-396 | the new state and whether it threw are `SocketController.Settings` |
| SocketServer.Server.Awake | Backup/Server.cs:41-52 | the settings, then the log opens unless they threw |
| SocketServer.Server.Start | Backup/Server.cs:53-71 | hides the Start and Quit buttons and both panels |
| SocketServer.Server.SetNetworkForData | Backup/Server.cs:233-243 | the in-place loop with `RemoveAtSwapBack` and `--i` leaves `CleanUp` of the old list and changes nothing else |
| SocketServer.Server.SendNetworkData | Backup/Server.cs:218-232 | cleans the connections and sends the message |
| SocketServer.Server.WriteLogLine | Backup/Server.cs:332-335 | appends the `HH:mm:ss,ppn,scenario,stap,decision` line when the log is open |
| SocketServer.Server.ProcessNetworkMessage | Backup/Server.cs:164-217 | throws exactly when a verb lacks its argument; the new state is `Receive` of the decoded message |
| SocketServer.Server.ShowText | Backup/Server.cs:173-186 | the text cases apply `Receive` |
| SocketServer.Server.ShowPanel | Backup/Server.cs:187-210 | the `reaction` and `end` cases apply `Receive` |
| SocketServer.Server.ProcessButtons | Backup/Server.cs:260-331 | a press is `SocketController.Press` |
| SocketServer.Server.Respond | Backup/Server.cs:276-315 | a reaction sends its message, hides the reactions and records the decision |

## Left out

- HTTP transport: the `UnityWebRequest` inside `SendToServer` and the coroutine scheduling. A request is appended to `outbox`, and its outcome is delivered by `CompleteRequest` as a `Delivered` text or a `NetworkError`.
- The relay `server.php` (its mailbox and locks) is not part of this model.
- The HTTP result check keeps the code's shape. A successful request always fills `serverReply`, because the inner `ConnectionError`/`ProtocolError` test never fires after `Success`.
- Unity Transport networking in `Backup/Server.cs` is left out:
  - `NetworkDriver`, the event pump `ListenForNetworkData` in `Update` (with the connection cleanup it runs before receiving), accepting connections, `Disconnect` events, and the keep-alive timer and `alive` sends;
  - `GetLocalIPAddress` and the IP registration in its `SendToServer`.
- A connection is only its `IsCreated` flag.
- SocketServer.Server.SendNetworkData: records the message once in `sent` rather than once per open connection, including when no connection is open and the source sends nothing; `lastSent` is not modelled.
- SocketController.PressSends: `sent` gains Start's or a reaction's message even when no connection is open, when the source sends nothing.
- File I/O:
  - the settings, ppn and port files are given as their lines;
  - an empty file is modelled: `ReadLine` returns null, which `Convert.ToInt32` reads as 0;
  - an empty first line is modelled: `Convert.ToInt32("")` throws;
  - a missing file is not: the `StreamReader` constructor throws `FileNotFoundException`, and a file here is only its lines (see the next two lines);
  - the log file is a sequence of lines, and its name and time stamp are left out.
- SessionSettings.LoadSettings: a missing `settings.txt` (Assets/Scripts/Server.cs:416) is not modelled. The exception comes after ppn was incremented and written back; it ends Start with `Abort` false, so Update goes on polling with the default server number 1. A missing `ppn.txt` ends GetSettings like an unreadable one (`Thrown`).
- SocketController.Settings: a missing `ppn.txt` or `port.txt` (Backup/Server.cs:383 and 392) is not modelled. Its exception ends GetSettings and Awake like an unreadable number does, but for `port.txt` only after ppn was written back.
- Floating point: `Convert.ToDouble` of the two float settings is a table from accepted texts to the text `float.ToString` gives them. Nothing else is done with them.
- `DateTime` is integer ticks, with `DateTime.Now` passed in as `now`. The session controller's poll interval is its own field `pollingInterval = 2.0` seconds, never the settings value, and is the constant `PollingIntervalTicks`.
- .NET parsing: `Convert.ToInt32` and `int.TryParse` are modelled as trimming white space, an optional sign and decimal digits within Int32. Two culture- and runtime-dependent behaviours are left out: the trailing NUL characters the .NET parser also accepts after the digits, and the culture's time separator in `ToString("HH:mm:ss")`, since Text.FormatClock always writes `:`.
- UI calls (`SetActive`, `TMP_Text`, `Image.color`, `connectDot`):
  - they are boolean and text fields of a `Ui`/`Screen` record;
  - `Application.Quit` and the editor stop are a `quit` flag;
  - the `print`/`Debug.Log` output is left out.
- The session controller's commented-out `WriteLogLine` call after its button switch (`Assets/Scripts/Server.cs:363`): only reaction buttons log, as in the code.
- The check `scenarioNumbers.Length == 0` (Assets/Scripts/Server.cs:483-488) cannot fire, because `Split` always gives at least one piece (Text.Split). The model has no separate branch for it.
- NativeSort job scheduling (`SortJob`, the `JobHandle` overloads, `IJobParallelFor`) is left out. `SegmentSort.Execute` runs for one segment index at a time. SegmentSort.MergeSegments requires every segment to be sorted; `SortSegment` sorts one segment in place, and SegmentSort.SortedSegmentsArePieces turns all segments sorted in place into that requirement.
- The container overloads of NativeSort (`NativeArray`, `NativeList`, `UnsafeList`, `NativeSlice`) and `CheckStrideMatchesSize` are left out.
- NativeSort.IntroSortRange: the ensures hold for every depth budget, and termination rests on the shrinking range. The model does not prove the O(n log n) bound the budget `2 * Log2Floor(length)` is there for.
- SegmentSort.MergeSegments: the size arithmetic of `SegmentSortMerge.Execute` (NativeSort.cs:988-1022) is unchecked Int32 in the source and unbounded `int` here, so the sorted-and-permuted ensures also cover lengths where the source fails:
  - `segmentCount = (Length + (SegmentWidth - 1)) / SegmentWidth` wraps negative once `Length + SegmentWidth - 1 > 2^31 - 1` (for a width of 1024, `Length > 2^31 - 1024`), and `stackalloc int[segmentCount]` then throws;
  - `UnsafeUtility.SizeOf<T>() * Length`, the byte size of the scratch buffer and of the final `MemCpy`, wraps once it reaches 2^31 (for a 4-byte `T`, `Length >= 2^29`), so the allocation and the copy-back get the wrong size;
  - SegmentSort.SegmentCount and SegmentSort.MergeIntoCopy inherit the same gap: the model's count is the true ceiling and its copy has `length` cells for every length.
- SegmentSort.MergeIntoCopy: `stackalloc` is a fresh zeroed `array<int>`, and `default(T)` is an arbitrary value. The copy is a fresh array rather than `Allocator.Temp` memory.
- Raw pointers are arrays: `Sort(T*, int)` works on `a[0..length)` of an `array<T>`. Comparers are pure functions that obey the total-preorder laws. A comparer that breaks them is out of scope.
- `Assets/Scripts/Common.cs` is folded into the controller's configuration and state: `Ppn`, `Abort`, `AbortMSG` and the timing values.
- `Assets/Scripts/Main.cs` and `NativeHashSetExtensions.cs` are not part of this model.

## Findings

| source | as written | input that shows it | evidently intended | confidence | as-written member | corrected member |
|---|---|---|---|---|---|---|
| Assets/Scripts/Server.cs:260-263 | ProcessButtons closes the latch and sends its command without checking `waitingForServer`, so a press during an outstanding POLL puts two requests in flight; a reply that then arrives with the latch open is cleared by the next poll's `PrepServerResponse` (lines 68-85) | btnPositive pressed while a POLL is outstanding; the relay answers `CMD,POS,OK` first and `CMD,POLL,CMD,END` second; a frame more than two seconds after the acknowledgement | at most one request in flight, so that every reply reaches ProcessNetworkMessage | not executed; medium | SessionController.EndLostAfterPress | SessionController.PressWhenIdle |

SessionController.TwoInFlight shows the as-written press breaking OneInFlight. SessionController.PressWhenIdle is the corrected press: while the controller waits, it takes only the Quit buttons. With it, SessionController.OneInFlightKept proves the intended property for every event, and StartInFlight proves it after Start. The controller class `SessionServer.Server` keeps the code's ProcessButtons.
