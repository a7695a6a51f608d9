# gear-lib: verified models of its core algorithms

gear-lib is a collection of C libraries. This project models the parts whose behaviour is hardest to see by reading,
and proves what they promise for every input, every run or every reachable state.

| part | source | modules |
|---|---|---|
| epoll emulation: socket index | `wepoll.c`, red-black tree | `TreeShape`, `TreeRotate`, `TreeInsert`, `TreeDelete`, `SockTree` |
| epoll emulation: port and sockets | `wepoll.c`, queues, poll groups, state machine | `Queue`, `Links`, `SockIndex`, `PollGroups`, `PollPort`, `PollPortSteps`, `PollPortRuns`, `PollPortEvents`, `PollPortEffects`, `PollPortSilence`, `PollPortWaits`, `PortDelete`, `PortSteps` |
| JSON | `cJSON.c` | `JsonString`, `Json`, `JsonRoundTrip`, `JsonReader`, `JsonParser`, `JsonPrinter`, `JsonMinify`, `JsonSweep`, `JsonPieces`, `JsonGrammar`, `JsonAccepted`, `JsonCompact`, `JsonLiteral`, `JsonNumeral`, `JsonLanguage`, `JsonLeading`, `JsonStandard`, `JsonLimits`, `JsonPrinted` |
| dictionary | `libdict.c` | `DictProbe`, `DictTable`, `DictGrow`, `Dict` |
| H.264 over SRTP | `streaming.c`, `crypto.c` | `AnnexB`, `RtpPayload`, `Packetizer`, `Streaming`, `Srtp`, `SrtpVector` |
| bitmaps | `libbitmap.c`, `libbitmap.h`, `hweight.c` | `Bitmap`, `BitmapArea`, `BitmapRegion`, `BitmapRank`, `BitmapShift`, `BitmapParse`, `BitmapText`, `HWeight` |
| shared | | `Common` (bytes, optional values), `Arithmetic` (powers of two, remainders) |

How the parts are modelled:

- **Socket index.** Nodes are heap objects with parent links that are relinked and recoloured in place. A ghost shape and
  a zipper (a path from the root with a hole) say what the heap holds; every rotation, splice and repair turn is proved
  against the zipper, and every public operation against the set of entries.
- **Port state machine.** Each call made under the port lock is one step; a waiting thread drops the lock between
  entering the wait and taking up what it dequeued, so runs interleave freely there. The kernel is a parameter of each
  step: it may refuse a submit or a cancel, and delivers each submitted poll's completion at most once. Pure functions
  give the effect of each source function on sequences and maps. The class `Port` is the source's data structure: one
  intrusive node per socket for both socket queues, a ring of groups, and the red-black tree of the socket index. Every
  call on it is proved to do to the links exactly what the pure function does to the sequences and the key map.
  `PortSteps.Perform` takes any step of a run on it and `PortSteps.Replay` any whole run, through the same states, so
  the run theorems hold of the linked form. Beside the invariants of all runs there are theorems on what each step does:
  to registrations, to waiting threads, to what the kernel is asked for and to what is reported. Event masks are sets of
  bit positions.
- **JSON.** What the parser computes and the printed text are functions; the parser with its moving offset, the two-pass
  string reader that writes into a counted allocation, the growing print buffer and the in-place minifier are imperative
  and are proved against those functions. The accepted language is given once more and independently, as concrete syntax
  trees with every blank, with rules of their own for literals and numbers, and for the standard by the rules of RFC
  8259. Numbers are lexemes. The minifier runs on memory rather than on a C string, because it may leave the string.
- **Dictionary.** The table is an array of slots mutated in place; a ghost map says what it represents. Size, fill and
  used count are 32-bit numbers that wrap as in the source.
- **Streaming.** The session buffer is written in place as in the source; the sequence of sent packets is recorded. A
  receiver written from sections 5.6, 5.7.1 and 5.8 of RFC 6184 reads it back. The cipher is a parameter.
- **Bitmaps.** A 64-bit long is the set of its one bits, so and, or and complement are set operations; a bitmap is an
  array of longs. `HWeight` works on numbers with 32- and 64-bit wrap-around and `HWeight.WordWeight` ties the two views.

Where code and documentation differ, the model follows the code:

- `dict_get` returns NULL for a missing key and never its `defval` argument, because the lookup ends at a free slot instead of failing (`libdict.c:351-366`).
- `dict_del` of a missing key still writes a tombstone and decrements `used` (`libdict.c:369-392`), and tombstones can
  fill the table so that no lookup of a missing key ends: `Dict.TombstonesExhaust`, with the exact condition in
  `DictTable.LookupEnds`.
- Once `used` has wrapped below zero that way, the doubling loop of `dict_resize` doubles to zero and never ends, with 64
  slots and a single key: `Dict.DeletionsHang`, with the exact condition in `DictGrow.DoublingEnds`.
- The 8-bit counter of buffered units wraps, so an aggregate of 257 units is sent without its header:
  `Packetizer.WrapLosesUnits`, with the exact condition in `Packetizer.RoundTrip` and the exact MTU in
  `Packetizer.MtuThreshold`.
- The packet index of SRTP repeats after 2^48 indexes: `Srtp.IndexWraps`, with the exact condition in `Srtp.IndexShared`.
- An empty request to the zero-area search is not answered with the least aligned position when the search passes one on
  its way to the first zero bit (`BitmapArea.EmptyRequestSkips`), nor with a position at or after a start beyond the
  bitmap when the size is aligned (`BitmapArea.EmptyRequestBeyond`); `BitmapArea.EmptyRequest` has the exact condition.
- `cJSON_Minify` on a C string with a literal or a block comment left open goes on behind the terminator, reading and
  writing there: `JsonPieces.LeftOpen` and `JsonPieces.TerminatorMoves`, with the exact condition in
  `JsonPieces.StopsInside`. The shortest block comment is `/*/`.
- The comment on the bitmap parser rejects groupings such as "1,,5", ",44", "," and "" (`libbitmap.c:353-358`), which all
  have an empty group; it does not name a comma at the end. Such a comma, as the very last byte of the buffer, leaves an
  empty group too and is accepted, because the loop stops at the end of the buffer (`libbitmap.c:419`):
  `BitmapText.TrailingComma`, with the exact condition in `BitmapText.DenotedExactly`.
- Texts of RFC 8259 that `cJSON_ParseWithOpts` refuses are exactly those with arrays and objects nested more than 1000
  deep, with a number of more than 63 bytes or with a surrogate that has no partner: `JsonLimits.StandardAccepted`, with
  each limit at an input in `JsonLimits.BracketsAccepted`, `JsonLimits.OnesAccepted` and `JsonLimits.LoneSurrogate`.
- Outside the standard the two passes of `parse_string` need not agree on where escapes begin. A `\u` with four bytes that
  are no digits gives a zero byte (`JsonLanguage.NoDigits`), and the closing quote itself can become part of the text
  (`JsonLanguage.QuoteTaken`); `JsonLiteral.LiteralExactly` says exactly which literals are accepted.
- Where a key is missing, the position of the error is one byte behind the byte that is no quote: `JsonParser.MissingKey`.
- A caller's print buffer has to hold two bytes more than the text, its terminator included: `JsonPrinter.PrintPreallocated`.

## Model

| member | source | states |
|---|---|---|
| `SockTree.Tree.Rotate` | gear-lib/libgevent/wepoll.c:1982-2009 | a rotation at any node of the heap, parent links and root included, leaves exactly the rotated shape under the same path |
| `TreeRotate.RotatedSame` | gear-lib/libgevent/wepoll.c:1982-2009 | rotation changes neither the in-order sequence nor the set of nodes |
| `SockTree.Tree.Attach` | gear-lib/libgevent/wepoll.c:2011-2059 | a new red leaf is linked at the gap the descent has found, both ways |
| `TreeInsert.InsertedOrder` | gear-lib/libgevent/wepoll.c:2041-2059 | filling that gap inserts the key at its place in the in-order sequence |
| `TreeInsert.PushedPending` | gear-lib/libgevent/wepoll.c:2023-2026 | recolouring moves the one possible red-red edge up two levels and keeps black heights |
| `TreeInsert.LiftedPending` | gear-lib/libgevent/wepoll.c:2033-2035 | the final rotation removes the red-red edge |
| `SockTree.Tree.RebalanceAfterInsert` | gear-lib/libgevent/wepoll.c:2061-2068 | the repair loop ends with a red-black tree that holds the same entries in the same order |
| `SockTree.Tree.Add` | gear-lib/libgevent/wepoll.c:2038-2071 | adding keeps a pointer-consistent red-black search tree, adds exactly that node, and for a key already present returns -1 and changes nothing |
| `SockTree.Tree.SpliceOne` | gear-lib/libgevent/wepoll.c:2098-2147 | a node with at most one child is replaced by it, and the colour taken out is reported |
| `SockTree.Tree.SpliceTwo` | gear-lib/libgevent/wepoll.c:2098-2147 | a node with two children is replaced by its in-order successor, which takes its colour and both its children |
| `TreeDelete.SuccessorOrder` | gear-lib/libgevent/wepoll.c:2109-2147 | that replacement removes exactly one entry from the in-order sequence |
| `TreeDelete.DemotedShort` | gear-lib/libgevent/wepoll.c:2076-2081 | making a red sibling the parent keeps the deficit of one black level at the same place |
| `TreeDelete.TurnedShort` | gear-lib/libgevent/wepoll.c:2084-2089 | turning the sibling towards its red inner child keeps the deficit and makes the outer child red |
| `TreeDelete.SettledBalanced` | gear-lib/libgevent/wepoll.c:2090-2094 | the last rotation repairs the deficit |
| `TreeDelete.RaisedDeficit` | gear-lib/libgevent/wepoll.c:2096-2164 | a black sibling without red children turns red and the deficit moves up one level |
| `SockTree.Tree.RebalanceAfterRemove` | gear-lib/libgevent/wepoll.c:2148-2168 | the repair loop restores a red-black tree with the same entries |
| `SockTree.Tree.Del` | gear-lib/libgevent/wepoll.c:2098-2169 | deleting keeps a pointer-consistent red-black search tree and removes exactly that node |
| `SockTree.Tree.Find` | gear-lib/libgevent/wepoll.c:2171-2182 | a node is returned exactly when its key is present, and nothing changes |
| `SockTree.Replay` | gear-lib/libgevent/wepoll.c:2038-2182 | after any sequence of registrations and removals the tree is valid and holds exactly the expected keys |
| `Queue.IsEnqueued` | gear-lib/libgevent/wepoll.c:1514-1520 | the pointer test tells whether the ring has more than one node |
| `Queue.First` | gear-lib/libgevent/wepoll.c:1477-1479 | the first entry, null for an empty queue |
| `Queue.Last` | gear-lib/libgevent/wepoll.c:1481-1483 | the last entry, null for an empty queue |
| `Queue.Prepend` | gear-lib/libgevent/wepoll.c:1485-1490 | the node becomes the first entry of one consistent doubly linked ring |
| `Queue.Append` | gear-lib/libgevent/wepoll.c:1492-1497 | the node becomes the last entry |
| `Queue.Detach` | gear-lib/libgevent/wepoll.c:1472-1475 | the ring closes over a removed entry, all others in order |
| `Queue.Remove` | gear-lib/libgevent/wepoll.c:1509-1512 | the removed node is a ring of its own again |
| `Queue.MoveToStart` | gear-lib/libgevent/wepoll.c:1499-1502 | the entry is first and the others keep their order |
| `Queue.MoveToEnd` | gear-lib/libgevent/wepoll.c:1504-1507 | the entry is last and the others keep their order |
| `PollGroups.AcquireSound` | gear-lib/libgevent/wepoll.c:996-1014 | acquiring takes a slot in a group that is not full and keeps all full groups before all others |
| `PollGroups.ReleaseSound` | gear-lib/libgevent/wepoll.c:1016-1026 | releasing gives one slot back and keeps that order |
| `PollGroups.NeedsGroupMeansFull` | gear-lib/libgevent/wepoll.c:996-1006 | a new group is made exactly when every existing one holds 32 sockets |
| `PollPortSteps.SetEventKeeps` | gear-lib/libgevent/wepoll.c:1715-1730 | new interest is recorded with error and hang-up added, and the socket is queued or its poll covers it |
| `PollPortSteps.UpdateKeeps` | gear-lib/libgevent/wepoll.c:1774-1834 | an update that succeeds takes the socket out of the queue with its interest looked after; one that fails changes nothing |
| `PollPortSteps.FeedKeeps` | gear-lib/libgevent/wepoll.c:1836-1889 | a fed completion is used up, the socket is queued again or freed, and only events the user asked for come out |
| `PollPortSteps.DeleteKeeps` | gear-lib/libgevent/wepoll.c:1678-1709 | a deleted socket is freed at once if no poll is outstanding, else parked; no other socket changes |
| `PollPortRuns.StepKeeps` | gear-lib/libgevent/wepoll.c:1170-1390 | every call and every kernel action keeps the invariant, under any interleaving at the points where the lock is free |
| `PollPortRuns.NoLostInterest` | gear-lib/libgevent/wepoll.c:1170-1308 | in every run, every registered socket is queued for update, or has an outstanding poll that covers its events, or a cancelled one still to complete; while a thread waits the update queue is empty unless a submit or cancel failed |
| `PollPortRuns.LifetimeSafety` | gear-lib/libgevent/wepoll.c:1414-1444 | in every run a poll is outstanding exactly when the status is not idle, dequeued completions belong to live sockets, no socket is in both queues, and a delete-pending socket is neither in the update queue nor in the tree |
| `PollPortRuns.FreedOnlyWhenQuiet` | gear-lib/libgevent/wepoll.c:1678-1705 | a step that frees a socket leaves no completion for it outstanding; if one was, this very step feeds it back |
| `PollPortRuns.GroupsExact` | gear-lib/libgevent/wepoll.c:996-1026 | in every run each group's size is the number of sockets that hold it, at most 32, and a new group is needed exactly when all are full |
| `PollPort.Feed` | gear-lib/libgevent/wepoll.c:1836-1889 | an event comes out exactly when the socket is to be kept and something its user wants has happened, and it holds exactly that: read and write, priority, hang-up and error by the AFD bits that bring each about |
| `PollPortEvents.PolledExactly` | gear-lib/libgevent/wepoll.c:1732-1772 | the mask for the kernel is the closing of the socket and everything that makes a wanted event happen, by the table that reads the report, if and only if errors are wanted or nothing is that a failed connect brings about |
| `PollPortEvents.FeedAllDue` | gear-lib/libgevent/wepoll.c:1193-1209 | the events of a batch are exactly those due from the sockets as they were before it, in order |
| `PollPortEffects.Added` | gear-lib/libgevent/wepoll.c:1321-1336 | in every run, adding a free valid handle registers it with the asked interest and data, unless the kernel refuses it at once; a refused or repeated addition registers nothing |
| `PollPortEffects.Modified` | gear-lib/libgevent/wepoll.c:1338-1351 | in every run, changing a registered handle replaces interest and data, and an unknown one changes nothing |
| `PollPortEffects.Deleted` | gear-lib/libgevent/wepoll.c:1353-1361 | in every run, deleting a registered handle ends that registration, leaves every other with its socket as it is, and frees the socket if no poll of it is outstanding and else parks it; an unknown handle changes nothing |
| `PollPortEffects.DeletedSilent` | gear-lib/libgevent/wepoll.c:1353-1361 | in every run, nothing is reported for a deleted handle before it is added again |
| `PollPortSilence.OneShotSilent` | gear-lib/libgevent/wepoll.c:1880-1886 | in every run, after an event of a one-shot interest nothing is reported for the handle before it is changed or added again |
| `PollPortSilence.KernelAsked` | gear-lib/libgevent/wepoll.c:1774-1834 | in every run a pending poll asks for exactly what makes its events happen, and for a registered socket that is neither queued nor cancelled that includes everything that makes a wanted event happen |
| `PollPortWaits.Waited` | gear-lib/libgevent/wepoll.c:1211-1223 | in every run a thread that calls port_wait waits with nothing left to submit, or the kernel has refused a queued socket |
| `PollPortWaits.Woke` | gear-lib/libgevent/wepoll.c:1225-1232 | in every run a thread that wakes holds what it has dequeued and nothing else changes |
| `PollPortWaits.Resumed` | gear-lib/libgevent/wepoll.c:1233-1308 | in every run a woken thread is done, or waits again when it has nothing to hand out; a poll it has completed is outstanding afterwards only if the kernel has accepted it again |
| `Links.Queues.IsQueued` | gear-lib/libgevent/wepoll.c:1514-1520 | with one node per object for two queues, the test on the node tells exactly whether the object is in either |
| `Links.Queues.AppendFirst` | gear-lib/libgevent/wepoll.c:1414-1420 | an object in neither queue becomes the last of the first; the other ring and all lone nodes are as before |
| `Links.Queues.AppendSecond` | gear-lib/libgevent/wepoll.c:1430-1436 | the same for the second queue |
| `Links.Queues.Remove` | gear-lib/libgevent/wepoll.c:1422-1444 | the object leaves whichever queue it is in, without being told which, and both queues are consistent rings |
| `Links.Queues.MoveLast` | gear-lib/libgevent/wepoll.c:1504-1507 | the entry becomes the last of its ring, the others in order |
| `Links.Queues.MoveFirst` | gear-lib/libgevent/wepoll.c:1499-1502 | the entry becomes the first of its ring, the others in order |
| `SockIndex.Index.Find` | gear-lib/libgevent/wepoll.c:1407-1412 | the socket registered under a key, found through its node in the red-black tree, or none |
| `SockIndex.Index.Register` | gear-lib/libgevent/wepoll.c:1392-1400 | a socket's node joins the tree exactly when its key is free, and the map from keys to sockets grows by that entry |
| `SockIndex.Index.Unregister` | gear-lib/libgevent/wepoll.c:1402-1405 | the node leaves the tree, and exactly that key leaves the map |
| `SockIndex.Index.AtRoot` | gear-lib/libgevent/wepoll.c:1143-1150 | some registered socket as long as there is one |
| `PortDelete.Port.constructor` | gear-lib/libgevent/wepoll.c:1088-1117 | a new port has empty rings and an empty tree and stands for the initial state of the runs |
| `PortDelete.Port.Unqueue` | gear-lib/libgevent/wepoll.c:1422-1444 | on the rings, the two functions that take a socket out of a queue do what the state function does to both sequences |
| `PortDelete.Port.RequestUpdate` | gear-lib/libgevent/wepoll.c:1414-1420 | on the rings, a socket joins the update queue unless its one node is in either queue |
| `PortDelete.Port.Park` | gear-lib/libgevent/wepoll.c:1430-1436 | on the rings, a socket joins the deleted queue unless its one node is in either queue |
| `PortDelete.Port.ReleaseGroup` | gear-lib/libgevent/wepoll.c:1016-1026 | the count goes down and the group's node moves to the end of the ring, as the state function says of the sequence |
| `PortDelete.Port.AcquireGroup` | gear-lib/libgevent/wepoll.c:996-1014 | the last group of the ring, or a new one when it is full, takes the socket and moves to the front when it has 32: the state function on sequence and counts |
| `PortDelete.Port.NewSock` | gear-lib/libgevent/wepoll.c:1637-1676 | a socket is created and registered exactly when its key is free; otherwise socket and slot are given back, and the linked structure stands for the state function's result |
| `PortDelete.Port.SetEventSock` | gear-lib/libgevent/wepoll.c:1715-1730 | the new interest is stored and the socket queued on the ring when its poll does not cover it |
| `PortDelete.Port.RetireSock` | gear-lib/libgevent/wepoll.c:1678-1689 | the first half of deletion takes the socket out of its ring and its node out of the tree |
| `PortDelete.Port.DeleteSock` | gear-lib/libgevent/wepoll.c:1678-1713 | deletion, forced or not, on rings and tree stands for the state function: the memory of a freed socket is in no ring and not in the tree |
| `PortDelete.Port.UpdateSock` | gear-lib/libgevent/wepoll.c:1774-1834 | every branch of the update, with its changes to ring and tree, stands for the state function |
| `PortDelete.Port.UpdateAll` | gear-lib/libgevent/wepoll.c:1170-1186 | the loop over the ring empties the queue or stops at the first failure, as the recursive form does |
| `PortDelete.Port.FeedSock` | gear-lib/libgevent/wepoll.c:1836-1889 | every branch of the feed, with its changes to ring and tree, stands for the state function and yields its events |
| `PortDelete.Port.FeedBatch` | gear-lib/libgevent/wepoll.c:1193-1209 | feeding a batch one by one equals feeding it as a whole |
| `PortSteps.CtlAdd` | gear-lib/libgevent/wepoll.c:1321-1336 | on rings and tree, adding a socket has the effect of the state machine's step, the refused cases included |
| `PortSteps.CtlMod` | gear-lib/libgevent/wepoll.c:1338-1351 | the same for a change of interest |
| `PortSteps.CtlDel` | gear-lib/libgevent/wepoll.c:1353-1361 | the same for a removal |
| `PortSteps.EnterPoll` | gear-lib/libgevent/wepoll.c:1211-1223 | a thread that begins to wait: updates first, then it is counted and the lock dropped, or the wait ends with the failure |
| `PortSteps.ResumePoll` | gear-lib/libgevent/wepoll.c:1233-1308 | a thread that has the lock again feeds what it dequeued, hands out exactly the events due, and waits again or ends |
| `PortSteps.Perform` | gear-lib/libgevent/wepoll.c:1170-1390 | any enabled step of any thread or of the kernel, taken on rings and tree, leads to the state that the state machine goes to, keeps the invariant and hands out exactly the events due |
| `PortSteps.Replay` | gear-lib/libgevent/wepoll.c:1170-1390 | a new port that performs the actions of a run ends with rings and tree that stand for the run's state |
| `PortDelete.ForceKeeps` | gear-lib/libgevent/wepoll.c:1711-1713 | a forced deletion frees exactly that socket and keeps tree, queues and group counts consistent |
| `PortDelete.Port.TearDown` | gear-lib/libgevent/wepoll.c:1139-1168 | the three loops over tree, deleted ring and group ring end, every group is empty when it is deleted and the update queue is empty at the end |
| `JsonString.DecodeFits` | gear-lib/libhomekit/cJSON.c:711-741 | whatever the input, the decoded text is no longer than the first pass has counted, even when the two passes disagree on where escapes begin |
| `JsonString.StringRoundTrip` | gear-lib/libhomekit/cJSON.c:698-946 | for every C string, parsing what the printer writes gives the string back and leaves what follows |
| `JsonReader.ParseHex4` | gear-lib/libhomekit/cJSON.c:540-573 | four hexadecimal digits give their number, anything else zero |
| `JsonReader.WriteUtf8` | gear-lib/libhomekit/cJSON.c:640-689 | the bytes written from last to first are the UTF-8 form of the code point |
| `JsonReader.Utf8Decodes` | gear-lib/libhomekit/cJSON.c:640-689 | that form is well formed and shortest by section 3 of RFC 3629, and decodes to the code point |
| `JsonReader.WriteUtf16` | gear-lib/libhomekit/cJSON.c:577-695 | a literal or surrogate pair is converted as a whole or rejected |
| `JsonReader.MeasureString` | gear-lib/libhomekit/cJSON.c:713-737 | the first pass finds the closing quote and counts the backslashes before it |
| `JsonReader.WriteString` | gear-lib/libhomekit/cJSON.c:744-802 | every write of the second pass lies inside the allocation, and the terminated output is the decoded text |
| `JsonReader.ReadString` | gear-lib/libhomekit/cJSON.c:698-824 | both passes together parse the literal as the reading function does, on every input |
| `JsonReader.ReadNumber` | gear-lib/libhomekit/cJSON.c:266-340 | at most 63 number bytes go to strtod, and the offset moves by what it takes |
| `JsonParser.ParseBuffer.SkipWhitespace` | gear-lib/libhomekit/cJSON.c:963-981 | the offset moves to the first visible byte and never past the last byte |
| `JsonParser.ParseBuffer.SkipMark` | gear-lib/libhomekit/cJSON.c:984-997 | a byte order mark at the beginning is skipped |
| `JsonParser.ParseBuffer.ReadValue` | gear-lib/libhomekit/cJSON.c:1212-1264 | the item, the new offset and the restored depth are those of the reading function; a failure leaves the offset in range |
| `JsonParser.ParseBuffer.ReadArray` | gear-lib/libhomekit/cJSON.c:1341-1432 | the same for arrays, with the nesting limit |
| `JsonParser.ParseBuffer.ReadElements` | gear-lib/libhomekit/cJSON.c:1372-1413 | the element loop reads the comma-separated list in order, as the reading function does |
| `JsonParser.ParseBuffer.ReadObject` | gear-lib/libhomekit/cJSON.c:1497-1603 | the same for objects |
| `JsonParser.ParseBuffer.ReadMembers` | gear-lib/libhomekit/cJSON.c:1527-1584 | the member loop reads keys, colons and values in order, as the reading function does |
| `JsonParser.ParseWithOpts` | gear-lib/libhomekit/cJSON.c:1000-1077 | for every text, with or without the demand for a terminator, the tree and the end are those of the reading function, whose language `JsonLanguage.AcceptedExactly` and `JsonLeading.BeginsExactly` give, and the position of an error is where the failing reader stopped, but inside the text |
| `JsonParser.MissingKey` | gear-lib/libhomekit/cJSON.c:805-822 | a missing key is reported one byte too far, at a concrete text |
| `JsonRoundTrip.RoundTrip` | gear-lib/libhomekit/cJSON.c:1212-1717 | for every tree without raw items within the nesting limit, parsing the print, formatted or not, gives the same tree and consumes all of the text |
| `JsonRoundTrip.ValueRoundTrip` | gear-lib/libhomekit/cJSON.c:1212-1338 | the same for a value inside a larger text, at any depth and indentation |
| `JsonPrinter.CountEscapes` | gear-lib/libhomekit/cJSON.c:854-878 | the counted length is exactly the length of the escaped text |
| `JsonPrinter.PrintBuffer.Ensure` | gear-lib/libhomekit/cJSON.c:373-458 | it fails exactly when the need is beyond what the buffer may grow to, and what has been printed stays |
| `JsonPrinter.PrintBuffer.UpdateOffset` | gear-lib/libhomekit/cJSON.c:461-471 | strlen moves the offset to the end of the text printed last |
| `JsonPrinter.PrintBuffer.PrintText` | gear-lib/libhomekit/cJSON.c:827-946 | the string is stored with exactly the counted length; it fails exactly when text, terminator and one byte do not fit |
| `JsonPrinter.PrintBuffer.PrintValue` | gear-lib/libhomekit/cJSON.c:1267-1338 | the text of the tree stands behind what was there, terminated, with the depth restored; success exactly when it fits with two bytes to spare |
| `JsonPrinter.PrintBuffer.PrintArray` | gear-lib/libhomekit/cJSON.c:1435-1494 | the same for arrays |
| `JsonPrinter.PrintBuffer.PrintObject` | gear-lib/libhomekit/cJSON.c:1606-1717 | the same for objects |
| `JsonPrinter.PrintGrowing` | gear-lib/libhomekit/cJSON.c:1087-1190 | whatever the first buffer size, the whole text comes out unless it is too long for an int |
| `JsonPrinter.PrintPreallocated` | gear-lib/libhomekit/cJSON.c:1192-1209 | a caller's buffer suffices exactly when it has two bytes more than the text |
| `JsonPrinted.StringWritten` | gear-lib/libhomekit/cJSON.c:827-946 | the printed form of a string is the one way to write it with short escapes for quote, backslash and five control characters, two digits for the other control characters, and nothing else escaped; it is a string of the standard |
| `JsonPrinted.ShortForms` | gear-lib/libhomekit/cJSON.c:893-937 | each short form, and two control characters, byte by byte |
| `JsonPrinted.PrintExactly` | gear-lib/libhomekit/cJSON.c:1267-1717 | a text is what is printed for a tree if and only if it is the text of a syntax tree with that value and the printer's layout: no blanks, or a blank behind each array comma, each member on a line of its own with a tab for each level, a tab behind the colon and the closing brace on its own line |
| `JsonPrinted.PrintStandard` | gear-lib/libhomekit/cJSON.c:1267-1717 | a tree whose numbers are numbers of RFC 8259 is printed as a document of RFC 8259 |
| `JsonPrinted.SamplePrinted` | gear-lib/libhomekit/cJSON.c:1267-1717 | one text byte by byte |
| `JsonMinify.MinifyFormatted` | gear-lib/libhomekit/cJSON.c:2633-2701 | for every tree, minifying the formatted print gives the unformatted print byte for byte |
| `JsonSweep.Minify` | gear-lib/libhomekit/cJSON.c:2633-2701 | in place, for any memory: if the scan ends inside it, the bytes kept and one zero byte stand at the beginning and everything behind them is as before; bytes behind the terminator are read, and written, where the source does so |
| `JsonSweep.SkipLine` | gear-lib/libhomekit/cJSON.c:2661-2668 | the comment is skipped up to its newline or the zero byte |
| `JsonSweep.SkipBlock` | gear-lib/libhomekit/cJSON.c:2669-2677 | the comment is skipped up to star and slash; a zero byte ends it too, and two bytes are skipped there |
| `JsonSweep.CopyLiteral` | gear-lib/libhomekit/cJSON.c:2678-2691 | a literal moves down unchanged, escapes respected, with the byte that ends it, which may be the terminator |
| `JsonPieces.MinifiedExactly` | gear-lib/libhomekit/cJSON.c:2633-2701 | a C string can be minified within its terminator, with a given result, if and only if it is a concatenation of bytes, line comments, closed block comments and closed literals of which that result is left |
| `JsonPieces.StopsInside` | gear-lib/libhomekit/cJSON.c:2633-2701 | whatever stands behind the terminator, the scan of the memory stops at the terminator if and only if the C string is such a concatenation |
| `JsonPieces.LeftOpen` | gear-lib/libhomekit/cJSON.c:2669-2691 | the texts `/*`, `"a` and `"a\` are not |
| `JsonPieces.TerminatorMoves` | gear-lib/libhomekit/cJSON.c:2678-2691 | at a concrete memory with an open literal the terminator is copied down and the byte behind it takes its place |
| `JsonGrammar.TreeParses` | gear-lib/libhomekit/cJSON.c:1212-1603 | whatever blanks, escapes and number forms a well formed syntax tree has, its text parses to its meaning and what follows is left |
| `JsonAccepted.ValueReads` | gear-lib/libhomekit/cJSON.c:1212-1603 | whatever the parser takes for a value is the text of a well formed syntax tree with that meaning |
| `JsonLiteral.LiteralExactly` | gear-lib/libhomekit/cJSON.c:698-824 | a literal is accepted with a text if and only if it consists of bytes and escaped bytes, so that no quote in it is free, and read as characters, escapes and code units with surrogates paired it means that text |
| `JsonNumeral.NumericExactly` | gear-lib/libhomekit/cJSON.c:266-340 | a number is taken whole if and only if it has at most 63 bytes and is a minus or none, digits, a point with digits or none, and an exponent or none, with a digit where one is needed |
| `JsonLanguage.AcceptedExactly` | gear-lib/libhomekit/cJSON.c:1000-1063 | a C string is accepted to its end with a value if and only if it is a byte order mark or none, blanks, the text of a syntax tree that denotes the value by those rules, and blanks |
| `JsonLeading.BeginsExactly` | gear-lib/libhomekit/cJSON.c:1000-1083 | cJSON_Parse accepts a C string with a value and a rest if and only if it is a byte order mark or none, blanks, the text of a syntax tree that denotes the value, and that rest, where a number goes on as long as it can |
| `JsonLeading.WholeExactly` | gear-lib/libhomekit/cJSON.c:1027-1035 | asking for the terminator refuses a text exactly when something but blanks stands behind its value, and changes nothing else |
| `JsonLanguage.NoDigits` | gear-lib/libhomekit/cJSON.c:540-573 | a code unit without digits stands for a zero byte |
| `JsonLanguage.QuoteTaken` | gear-lib/libhomekit/cJSON.c:711-802 | a literal on which the two passes disagree is accepted and takes its closing quote into the text |
| `JsonCompact.MinifiedParses` | gear-lib/libhomekit/cJSON.c:2633-2701 | every text that parses to its end can be minified without running past its terminator, the result parses to the same value, and minifying again changes nothing |
| `JsonStandard.LiteralMeant` | gear-lib/libhomekit/cJSON.c:698-824 | for every string of the standard, with any escapes, both passes give the UTF-8 form the standard means, and fail exactly when a surrogate has no partner |
| `JsonStandard.UnitWritten` | gear-lib/libhomekit/cJSON.c:540-573 | four hexadecimal digits, capital or small, are read as the code unit they write |
| `JsonStandard.StrtodAll` | gear-lib/libhomekit/cJSON.c:266-340 | every number of the standard is taken whole |
| `JsonLimits.StandardAccepted` | gear-lib/libhomekit/cJSON.c:1000-1603 | a document of the standard is accepted, with its value, if and only if it nests to at most 1000, its numbers have at most 63 bytes and its surrogates are paired |
| `JsonLimits.BracketsAccepted` | gear-lib/libhomekit/cJSON.c:1341-1352 | n opening and n closing brackets are accepted if and only if n is at most 1000 |
| `JsonLimits.OnesAccepted` | gear-lib/libhomekit/cJSON.c:266-340 | a number of n digits one is accepted if and only if n is at most 63 |
| `JsonLimits.LoneSurrogate` | gear-lib/libhomekit/cJSON.c:594-640 | the document that is one high surrogate is refused |
| `DictProbe.PowerSteps` | gear-lib/libdict/libdict.c:167-183 | 2^k steps of i -> 5i + 1 are an affine map whose offset is an odd multiple of 2^k |
| `DictProbe.Reaches` | gear-lib/libdict/libdict.c:167-183 | hence i -> 5i + 1 has full period modulo every power of two |
| `DictProbe.PerturbVanishes` | gear-lib/libdict/libdict.c:168-168 | the perturbation of a 32-bit hash is zero from the seventh shift on |
| `DictProbe.ProbeCovers` | gear-lib/libdict/libdict.c:153-184 | from then on any `size` consecutive probes visit every slot |
| `DictTable.LookupEnds` | gear-lib/libdict/libdict.c:141-186 | a lookup ends if and only if an empty slot or the key exists, and then within 7 + size probes |
| `DictTable.SlotFound` | gear-lib/libdict/libdict.c:141-186 | the slot where it ends holds the key exactly when the key is in the table |
| `DictTable.PutKeeps` | gear-lib/libdict/libdict.c:191-218 | writing there keeps the probe chains and binds exactly that key |
| `DictTable.EraseKeeps` | gear-lib/libdict/libdict.c:369-392 | a tombstone there keeps the probe chains and unbinds exactly that key |
| `Dict.Dictionary.Lookup` | gear-lib/libdict/libdict.c:141-186 | the loop terminates and returns that slot |
| `Dict.Dictionary.Get` | gear-lib/libdict/libdict.c:351-366 | the mapped value, or NULL when the key is absent |
| `Dict.Dictionary.Del` | gear-lib/libdict/libdict.c:369-392 | the key is gone and nothing else; exactly one slot becomes a tombstone, also for an absent key, and `used` wraps at zero |
| `Dict.Dictionary.AddP` | gear-lib/libdict/libdict.c:191-218 | during a resize one binding is added; resize is entered again only at 2^31 slots, where it returns at once |
| `Dict.Dictionary.Add` | gear-lib/libdict/libdict.c:221-261 | exactly that binding is added or overwritten and a fill below two thirds stays below, with counters that wrap at 32 bits, whenever a slot is found and a resize, if entered, ends |
| `Dict.Dictionary.Resize` | gear-lib/libdict/libdict.c:264-306 | the map is unchanged; either nothing happens or the table grows, its fill falls below two thirds and the counters are exact again |
| `DictGrow.DoublingEnds` | gear-lib/libdict/libdict.c:277-280 | the 32-bit doubling loop ends if and only if the 32-bit product of factor and `used` is below 2^31 |
| `Dict.Dictionary.GrownSize` | gear-lib/libdict/libdict.c:277-283 | where it ends, the new size is a power of two above that product, at most twice it, and the old size exactly when that is enough |
| `Dict.Dictionary.Enumerate` | gear-lib/libdict/libdict.c:395-415 | the next live slot from a rank on, or the end |
| `Dict.Dictionary.Listing` | gear-lib/libdict/libdict.c:395-415 | enumerating from rank 0 yields every binding exactly once |
| `Dict.AddOnlyRun` | gear-lib/libdict/libdict.c:191-327 | in every run of fewer than 2^30 additions on a new table every lookup and every resize ends, fill stays below two thirds of a power-of-two size, and the last value of each key is stored |
| `Dict.LastAddition` | gear-lib/libdict/libdict.c:221-306 | that bound is exact for distinct keys: with 2^30 - 1 of them the table has 2^31 slots and the next addition never returns |
| `Dict.MixedRun` | gear-lib/libdict/libdict.c:221-392 | every run of fewer than 2^30 additions, overwrites and deletions of present keys goes on, every resize ending and the contents the fold of the calls, until a call whose lookup never ends |
| `Dict.DeletionsHang` | gear-lib/libdict/libdict.c:264-392 | 44 deletions of an absent key and 42 additions lead to a table of 64 slots and one key on which the next addition never returns |
| `Dict.TombstonesExhaust` | gear-lib/libdict/libdict.c:221-392 | 64 additions and deletions leave a table in which no lookup ends |
| `AnnexB.FindNalStart` | gear-lib/libhomekit/streaming.c:109-150 | the state loop returns the first three- or four-byte start code, or the end |
| `AnnexB.SplitEncode` | gear-lib/libhomekit/streaming.c:795-808 | splitting units joined with either start code gives the units back |
| `RtpPayload.ReceiveAggregate` | gear-lib/libhomekit/streaming.c:264-285 | a receiver takes an aggregate of any units apart again |
| `RtpPayload.ReceiveFragments` | gear-lib/libhomekit/streaming.c:301-334 | a receiver puts the fragments of any unit together again, header byte included |
| `Packetizer.RoundTrip` | gear-lib/libhomekit/streaming.c:243-339 | for every access unit and workable MTU the receiver gets the original units back if and only if no aggregate makes the 8-bit counter wrap |
| `Packetizer.SmallMtuRoundTrip` | gear-lib/libhomekit/streaming.c:262-339 | up to an MTU of 772 it always does |
| `Packetizer.MtuThreshold` | gear-lib/libhomekit/streaming.c:243-339 | every access unit survives if and only if the MTU is at most 772 |
| `Packetizer.WrapLosesUnits` | gear-lib/libhomekit/streaming.c:243-259 | 257 one-byte units in one aggregate arrive as one |
| `Packetizer.PacketsWellFormed` | gear-lib/libhomekit/streaming.c:216-339 | every payload fits the MTU, no fragment has both start and end bit, and exactly the last packet has the marker |
| `Streaming.Session.SendData` | gear-lib/libhomekit/streaming.c:216-240 | the buffered payload goes out with the marker and the next sequence number, an empty buffer sends nothing |
| `Streaming.Session.FlushBuffered` | gear-lib/libhomekit/streaming.c:243-259 | a single buffered unit is sent without the aggregate header, several with it |
| `Streaming.Session.SendNal` | gear-lib/libhomekit/streaming.c:262-339 | buffering, flushing, sending alone and fragmenting in place equal the packetising function |
| `Streaming.Session.SendFrame` | gear-lib/libhomekit/streaming.c:793-815 | one frame sends exactly the packets of its units and leaves nothing buffered |
| `Streaming.FrameRoundTrip` | gear-lib/libhomekit/streaming.c:793-815 | from Annex B frame to receiver, the units come back if and only if the counter does not wrap |
| `Srtp.Session.NextIndex` | gear-lib/libhomekit/crypto.c:115-130 | sequence number and rollover counter give the index of the packet |
| `Srtp.IndexExact` | gear-lib/libhomekit/crypto.c:115-130 | the index of packet n is the first sequence number plus n modulo 2^48, across every wrap of the 16-bit sequence and the 32-bit rollover counter |
| `Srtp.IndexShared` | gear-lib/libhomekit/crypto.c:115-130 | two packets share an index if and only if they are a multiple of 2^48 apart |
| `Srtp.IndexIncreases` | gear-lib/libhomekit/crypto.c:115-130 | it strictly increases as long as it stays below 2^48 |
| `Srtp.IndexWraps` | gear-lib/libhomekit/crypto.c:115-130 | the packet after that has index zero |
| `Srtp.CreateIv` | gear-lib/libhomekit/crypto.c:41-55 | the bytes overwritten in place are the initial vector, whose number `SrtpVector.IvNumber` gives |
| `SrtpVector.IvNumber` | gear-lib/libhomekit/crypto.c:41-55 | as a number the vector is the exclusive or of SSRC times 2^64, index times 2^16 and salt times 2^16 (section 4.1.1 of RFC 3711) |
| `SrtpVector.IvShared` | gear-lib/libhomekit/crypto.c:41-55 | under one salt two vectors are equal if and only if SSRC and index are |
| `SrtpVector.BlockNumber` | gear-lib/libhomekit/crypto.c:17-28 | the counter block is the vector plus the block number |
| `SrtpVector.KeyStream` | gear-lib/libhomekit/crypto.c:17-28 | every byte is combined with the byte of the cipher applied to the vector plus the number of its block |
| `Srtp.IvInjective` | gear-lib/libhomekit/crypto.c:41-55 | different indexes give different initial vectors |
| `Srtp.EncryptCounter` | gear-lib/libhomekit/crypto.c:17-28 | the buffer is exclusive-ored in place with the cipher of successive counter blocks |
| `Srtp.EncryptedTwice` | gear-lib/libhomekit/crypto.c:17-28 | encrypting twice restores the data |
| `Srtp.BlocksShared` | gear-lib/libhomekit/crypto.c:17-55 | two counter blocks of a session are equal if and only if they have the same number in packets that share an index |
| `Srtp.BlocksDistinct` | gear-lib/libhomekit/crypto.c:17-55 | hence all counter blocks of the first 2^48 indexes are pairwise distinct |
| `Bitmap.NextBit` | gear-lib/libbitmap/libbitmap.h:107-118 | the first set bit from a position on, or the size |
| `Bitmap.NextZeroBit` | gear-lib/libbitmap/libbitmap.h:107-118 | the first zero bit from a position on, or the size |
| `Bitmap.SetRange` | gear-lib/libbitmap/libbitmap.c:247-265 | exactly the bits of the range are added to the set of positions |
| `Bitmap.ClearRange` | gear-lib/libbitmap/libbitmap.c:267-285 | exactly the bits of the range are removed |
| `BitmapArea.FindNextZeroArea` | gear-lib/libbitmap/libbitmap.c:300-323 | the search ends at the least aligned position at or after the start that heads the wanted zero bits, and answers above the size exactly when there is none |
| `BitmapArea.EmptyRequest` | gear-lib/libbitmap/libbitmap.c:300-323 | a request of zero bits meets the same promise if and only if no aligned position lies between a start within the bitmap and the first zero bit from there on, or, for a start beyond the bitmap, the size is not aligned |
| `BitmapArea.EmptyRequestSkips` | gear-lib/libbitmap/libbitmap.c:308-311 | without alignment it fails whenever the start bit is set |
| `BitmapArea.EmptyRequestBeyond` | gear-lib/libbitmap/libbitmap.c:300-323 | without alignment it fails whenever the start is beyond the size, with the size as the answer |
| `BitmapRegion.IsFree` | gear-lib/libbitmap/libbitmap.c:973-1023 | the word masks test exactly the bits of the region |
| `BitmapRegion.Alloc` | gear-lib/libbitmap/libbitmap.c:973-1023 | exactly the bits of the region are set |
| `BitmapRegion.Clear` | gear-lib/libbitmap/libbitmap.c:973-1023 | exactly the bits of the region are cleared |
| `BitmapRegion.FindFreeRegion` | gear-lib/libbitmap/libbitmap.c:1039-1050 | the least free aligned position is taken; it fails exactly when none exists |
| `BitmapRegion.AllocateRegion` | gear-lib/libbitmap/libbitmap.c:1079-1084 | the region is taken exactly when all its bits were free |
| `BitmapRegion.ReleaseRegion` | gear-lib/libbitmap/libbitmap.c:1063-1066 | the region's bits and no others are cleared |
| `BitmapRegion.RunExact` | gear-lib/libbitmap/libbitmap.c:973-1084 | in every run live regions are aligned and pairwise disjoint, the bitmap is exactly their union with the initial bits, and releasing everything restores it |
| `BitmapRegion.Perform` | gear-lib/libbitmap/libbitmap.c:1039-1084 | the three calls take exactly the steps of such runs |
| `BitmapRank.Weight` | gear-lib/libbitmap/libbitmap.c:233-245 | summing word weights and the masked last word counts the set bits below the bound |
| `BitmapRank.PosToOrd` | gear-lib/libbitmap/libbitmap.c:663-669 | the ordinal of a set bit, nothing for a clear or out-of-range one |
| `BitmapRank.OrdToPos` | gear-lib/libbitmap/libbitmap.c:689-699 | the position of the n-th set bit, the size when there are not so many |
| `BitmapRank.OrdInverse` | gear-lib/libbitmap/libbitmap.c:663-699 | the two are inverse to each other |
| `BitmapRank.BitRemap` | gear-lib/libbitmap/libbitmap.c:780-789 | a bit of the old map goes to the new bit of the same ordinal modulo the new weight, any other stays |
| `BitmapRank.Remap` | gear-lib/libbitmap/libbitmap.c:733-753 | the result is the image of the source under that map; nothing happens in place |
| `BitmapRank.RemapBack` | gear-lib/libbitmap/libbitmap.c:733-789 | between maps of equal weight, mapping there and back is the identity |
| `BitmapRank.Fold` | gear-lib/libbitmap/libbitmap.c:936-947 | bit n is set exactly when some source bit is n modulo the size |
| `BitmapRank.Onto` | gear-lib/libbitmap/libbitmap.c:897-923 | bit n is set exactly when it is in the relative map and its ordinal is a source bit |
| `BitmapRank.FoldOnto` | gear-lib/libbitmap/libbitmap.c:897-947 | fold by the weight, then onto: bit n is set exactly when it is in the relative map and some source bit modulo the weight is its ordinal |
| `BitmapShift.ShiftRight` | gear-lib/libbitmap/libbitmap.c:88-117 | bit p is source bit p + shift, zero from the bitmap's size on, in place included |
| `BitmapShift.ShiftLeft` | gear-lib/libbitmap/libbitmap.c:131-153 | bit p is source bit p - shift, zero below the shift, in place included |
| `BitmapShift.ShiftThereAndBack` | gear-lib/libbitmap/libbitmap.c:88-153 | left and then right keeps exactly the bits that were not shifted off the top |
| `BitmapParse.Parse` | gear-lib/libbitmap/libbitmap.c:360-422 | parsing succeeds exactly when the reading of the text has a number and it fits, and then the bitmap holds that number with no bit lost |
| `BitmapParse.ParseChunk` | gear-lib/libbitmap/libbitmap.c:374-407 | the inner loop reads one chunk, with its rules for white space and 32-bit overflow |
| `BitmapText.DenotedExactly` | gear-lib/libbitmap/libbitmap.c:345-422 | a text is read as a number if and only if it is blanks, groups of hexadecimal digits below 2^32 joined by single commas, and blanks up to the end or a terminator, or such groups with one comma as the very last byte |
| `BitmapText.TrailingComma` | gear-lib/libbitmap/libbitmap.c:353-419 | every list of groups with a comma as the very last byte is accepted although it is not well formed |
| `BitmapText.CommaBeforeTerminator` | gear-lib/libbitmap/libbitmap.c:353-419 | at the inputs "1," and "1," with a terminator: the first is accepted, the second is not |
| `BitmapText.WrittenNumber` | gear-lib/libbitmap/libbitmap.c:345-359 | every list of 32-bit chunks written in hexadecimal denotes its number |
| `HWeight.Weight32` | gear-lib/libbitmap/hweight.c:12-26 | the 32-bit form returns the number of one bits for every word, with no overflow between fields |
| `HWeight.Weight64` | gear-lib/libbitmap/hweight.c:43-63 | so does the 64-bit form |
| `HWeight.WordWeight` | gear-lib/libbitmap/hweight.c:43-63 | the number of elements of a long's set of bits is its computed weight |

## Left out

- Reference-counted locks and the locked tree wrappers of wepoll (`reflock_*`, `ts_tree_*`): the code tests the value from before the atomic addition, so the protocol its comment describes does not follow from these lines.
- Windows, AFD, completion-port and NT calls: they are the environment of the port model and appear as its parameters.
- Steps on a port that is being deleted while threads wait: the run theorems cover runs before deletion, and deletion is proved on its own from any state such a run can reach.
- Queue.Detach: the head is never the node taken out, as in every call of the source.
- Allocation failure, except a failed group creation in the port model; in cJSON, reallocation always succeeds.
- Conversion between doubles and digits (`print_number`, `parse_number`): a number is the text that sprintf would write, and strtod is modelled by how many bytes it takes; NaN and infinity, which print as null, are therefore not numbers of the round trip.
- JSON raw items, references, the constructors and accessors of cJSON, and the prev links of child lists, which no modelled function reads.
- JsonParser.ParseBuffer.ReadText: a `\u0000` escape puts a zero byte into the text; where a C caller stops reading is not modelled.
- JsonSweep.Minify: what happens once the scan leaves the given memory is not modelled; the model stops there and reports it, with what it has written so far.
- Dict.AddOnlyRun, Dict.MixedRun: runs of fewer than 2^30 calls, a bound that `Dict.LastAddition` shows to be exact for additions of distinct keys; longer runs with deletions or overwrites are not covered.
- Dict.Dictionary.Enumerate: the cast of a size of 2^31 to a signed int is not modelled.
- Dict.Dictionary.Lookup: called only where it ends, on a table with an empty slot or the key; the hash function is a parameter, and keys are values, so copying and freeing of strings is not modelled.
- Failed sends in the streaming session, RTCP reports, camera and encoder code, key derivation and the message authentication tag; AES is a parameter.
- Srtp.Session.NextIndex: every RTP packet takes the branch for RTP. A packet with the marker set and payload type 64 to 67 or 72 to 82 satisfies `RTP_PT_IS_RTCP` on its second byte and skips the rollover counter (`crypto.c:13-14`, `crypto.c:90`, `crypto.c:107-113`); those payload types are not modelled.
- Streaming.Session.SendNal: the MTU lies between 3 and 2024, the range in which the source's buffer and its fragment header fit.
- BitmapRegion.FindFreeRegion: positions and sizes are unbounded numbers, so the wrap of a 32-bit position is not modelled; regions are aligned to their size, as the source's comment demands.
- BitmapArea.FindNextZeroArea: wrap-around of index sums is not modelled; the alignment mask is given as the alignment.
- BitmapRank.Remap, BitmapRank.Onto: the destination is not also one of the maps; the source handles only the case where it is the bitmap to be mapped.
- BitmapRank.Fold: the size is not zero, where the source would divide by it.
- BitmapShift.ShiftRight, BitmapShift.ShiftLeft: the shift is at most the rounded-up size, beyond which the source would clear memory before the bitmap.
- BitmapParse.Parse: the bitmap has at least one bit.
- Equality, subset, intersection and the other word-by-word set operations on bitmaps, `bitmap_parselist`, `bitmap_print_to_pagebuf` and the copies to and from 32-bit arrays.
- The other libraries of the repository, among them lists, strings, files, IPC, configuration, mDNS and the event loops for other systems.
