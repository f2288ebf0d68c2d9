# FlowTrace, verified

FlowTrace collects function enter, function exit and trace records from running programs and shows
them as a tree of applications, threads and calls and as a list of lines. This project models the parts
of it where pointers, counters and unguarded loops carry the meaning, and proves what those parts are for.

Each module follows one part of the program:

| file | part |
|---|---|
| `CallTree.dfy` | nodes, their links, and the skip chain laid while children are added (`LogNodes`) |
| `Brackets.dfy` | the folding of enter and exit records into calls, on values, with the explicit call stack it must agree with |
| `FlowTree.dfy` | the same folding on the linked nodes |
| `RowTrees.dfy`, `TreeView.dfy`, `Collapse.dfy` | the visible preorder, numbering it without a stack, finding a row again, collapsing and expanding subtrees |
| `PtrArray.dfy`, `PtrSort.dfy`, `PivotSeeds.dfy`, `MemBuf.dfy` | the four-level pointer table, its in-place quicksort and the numbers that choose its pivots, the chunked allocator |
| `Traces.dfy`, `Readings.dfy`, `Splitter.dfy`, `Chars.dfy` | a thread's text in trace nodes of chained chunks, and the splitting of a record's text |
| `LineSplitter.dfy`, `Replay.dfy`, `Packets.dfy` | lines from a byte stream, skipping what logcat replays, dropping repeated packets |
| `FindStr.dfy`, `Listed.dfy` | substring search, the list of shown nodes |

How the program's terms appear here:

- Every kind of tree node is one class `LogNode` with a `kind`; the program derives structures from each
  other. Where an exit finds no open enter, the program casts the thread node to a flow node and asks it
  `isEnter()`. The answer depends on memory that is not a flow node, so it is a parameter (`threadBit`)
  of each record and everything is proved for both answers.
- What the links of an archive stand for is a ghost map `Shape` from nodes to their parent, place and
  children. `Archive.Linked` says that every link is the one the shape calls for, `Archive.Valid` adds the
  child counter, which is 32 bits wide like the eight bits of the skip-chain counter.
- `Brackets.Run` is the state of a thread after some records, whatever they are. `Brackets.Encloses` is
  stated on the records alone: call `i` is open when record `k` arrives and everything between them is
  balanced. For records that are not nested, `Brackets.CurrentAt`, `OpenFor` and `Climbs` say from the parents
  and peers alone which node was current, which enters were open, and what lies on the way up. `FlowTree.Built` ties a thread node to that state: the nodes, parents, peers and line numbers of
  its calls (`ThreadOk`), their being what its records make (`Recorded`), and the children of the thread and
  of each call being its calls in order of arrival (`InOrder`). Adding a thread or a record keeps every other
  thread built, so it holds for any number of threads and any order of their records (`FlowTree.RecordAll`).
- The tables of `PtrArray` come unzeroed: nothing is known of an entry before it is written. `unlimited`
  says that the memory never runs out; otherwise any allocation may fail.
- `PtrSorts.Stalls` is the one case in which a partition makes no progress: the pivot is the only greatest
  entry of the range and stands last. `PtrSorts.Step` is one move of the sort on values, a partition or taking
  up the range last put aside. `Sort` returns the run of such moves that it made, and what the run costs
  (`PtrSorts.CostOf`) is counted on it.
- In `MemBuf.dfy` the C heap is an object that knows which blocks are allocated; `free` demands that the
  block still is. Addresses are integers, so disjointness is about addresses.
- A null pointer to a text is the empty sequence in `FindStr.dfy`; a real C text has at least its NUL.
- A `Readings.Token` is a piece of a record's text with its meaning. `Readings.IsReading` says that tokens make up
  the text, each taking as much as it can; it does not refer to the splitting loop.
- In `Traces.dfy` a thread keeps the sequence of its chunks (`all`), where each node's chunks start
  (`firsts`) and the text they make up (`text`) as ghosts; `Chained` ties them to the links and counters.

Where the code and its comments or assertions disagree the code is followed:

- `LogParcer::getLine` asserts that no line is longer than its buffer and then goes on; the model
  goes on, and a longer line comes out in pieces.
- `CollapseExpandAll` on a node without children does not stop at that node: it walks on through the whole
  tree. `Collapse.CollapseExpandAll` states the exact set of nodes it sets and
  `Collapse.ScopeIsSubtree` states exactly when that set is the subtree.
- `PtrArray` holds 65790 pointers fewer than 32 bits can index (`PtrArrays.CAPACITY`), because a full table
  makes the next append open another one, whatever room is left below.
- `getListText` guards against text that is too long; `Traces.GetListText` shows that the guard never acts.
  The splitting loop's last two branches are dead too (`Splitting.AddRecord`).
- The replay filter lets the last header through again when a replay starts right at it, or when two
  replays end exactly there; `Replays.ExactlyOnce` and `Replays.Repeats` give the exact condition. Of several
  headers with the same time it lets some through again; `Replays.TiesRepeat` says which.
- The number of a packet is checked until a record is new to its application, and not for the records after it,
  whichever application they belong to. A packet of several applications may therefore be taken again when it
  arrives twice; `Packets.RepeatedMixed` gives the exact condition.

Checking: `dafny verify dfyconfig.toml`.

## Model

| member | source | states |
|---|---|---|
| `LogNodes.Archive.AddChild` | FlowTrace/LogData.h:122-147 | after appending a child every link of every node, skip links included, is the one the grown tree calls for, and every `childCount` is the number of nodes below, modulo 2^32 |
| `LogNodes.Archive.LinksAre` | FlowTrace/LogData.h:122-147 | every link of a node in terms of its parent's children: the skip chain goes from child 0 to 254, 510, ..., and `childCount` is the number of nodes below modulo 2^32 |
| `LogNodes.Archive.LinkLast` | FlowTrace/LogData.h:124-141 | the rewiring alone keeps all links of all nodes right |
| `LogNodes.Archive.LayChank` | FlowTrace/LogData.h:129-137 | the 8-bit counter and the marker lay exactly the next link of the skip chain |
| `LogNodes.Archive.CountUp` | FlowTrace/LogData.h:141-146 | the walk up the parents counts the new node on each ancestor and nowhere else |
| `LogNodes.ChankAppend` | FlowTrace/LogData.h:129-137 | one more child changes the chain of stops 0, 254, 510, ... only where the counter says so |
| `Brackets.StepSound` | FlowTrace/LogData.cpp:150-200 | for any record and either outcome of the cast: peers stay symmetric, join one enter with one later exit of the same function, and an exit has a parent exactly when it has no peer |
| `Brackets.RunStands` | FlowTrace/LogData.cpp:150-200 | each node stands for its record, and an enter without a line takes the line of its exit |
| `Brackets.ChainReachesThread` | FlowTrace/LogData.cpp:171-186 | for any records the parents of every node in the tree lead to the thread |
| `Brackets.CallStack` | FlowTrace/LogData.cpp:150-200 | after any prefix of properly nested records the open calls are the explicit stack, each the child of the one below |
| `Brackets.EnterParent` | FlowTrace/LogData.cpp:158-168 | the parent of an enter is the innermost call open when it arrived, or the thread if there is none |
| `Brackets.ExitPeer` | FlowTrace/LogData.cpp:169-186 | an exit's peer is the innermost open call, of the same function, and the exit stays out of the tree |
| `Brackets.EnterPeer` | FlowTrace/LogData.cpp:169-186 | an enter is paired with an exit if and only if it encloses it |
| `Brackets.TraceParent` | FlowTrace/Archive.cpp:549-556 | the place chosen for a trace is the innermost open call or the thread |
| `Brackets.AnyExit` | FlowTrace/LogData.cpp:169-198 | for any records, nested or not: an exit is paired with the first open enter of its function on the way from the current node up to the thread, past all calls whose exit is missing; it has no peer exactly if there is none on that way, and where it goes then |
| `Brackets.AnyEnter` | FlowTrace/LogData.cpp:158-168 | for any records: an enter goes under the current node if that is an open enter, or else under the thread |
| `Brackets.AnyTrace` | FlowTrace/Archive.cpp:549-556 | for any records: so does a trace |
| `Brackets.OneCurrent` | FlowTrace/LogData.cpp:150-157 | for any records: from the second one on there is exactly one current node, and the first one goes under the thread |
| `FlowTree.AddThreadChild` | FlowTrace/LogData.h:265-278 | the new node becomes last child of the thread or of the current node, and the current node |
| `FlowTree.FindOpen` | FlowTrace/LogData.cpp:171-186 | the search up the parents ends and finds the nearest open enter of the function, or the thread |
| `FlowTree.LinkPeers` | FlowTrace/LogData.cpp:175-182 | the two nodes become each other's peer, the line is taken over, and the current node moves to the enter's parent unless that is the thread |
| `FlowTree.AddExit` | FlowTrace/LogData.cpp:169-198 | an exit changes the linked nodes as the value model says, and becomes last child of the thread or the current node if it has no enter, or else leaves the tree as it was |
| `FlowTree.AddToTree` | FlowTrace/LogData.cpp:150-200 | the linked nodes of the thread stay the ones that its calls stand for, one step further, and the tree grows by the new node as last child at its place and by nothing else |
| `FlowTree.StepInOrder` | FlowTrace/LogData.cpp:150-200 | one more record puts its node last among its siblings and leaves the order of all other children of the thread as it was |
| `FlowTree.AddThread` | FlowTrace/Archive.cpp:271-284 | a new thread hangs under its application, last, and has no calls; every other thread keeps its calls |
| `FlowTree.AddFlow` | FlowTrace/Archive.cpp:374-427 | a record makes one node, linked last at the place of its own thread that the value model gives; every other thread keeps its calls |
| `FlowTree.RecordAll` | FlowTrace/Archive.cpp:374-427 | over any run of records for any number of threads in any order each thread holds exactly the calls that its own records make, in order of arrival |
| `FlowTree.ChildrenAreCalls` | FlowTrace/LogData.h:265-278 | every child of a thread or call is a call of the same thread with it as parent |
| `FlowTree.CallsInOrder` | FlowTrace/LogData.h:265-278 | calls with the same parent hang there in order of arrival |
| `FlowTree.TraceParent` | FlowTrace/Archive.cpp:549-556 | the parent chosen from the links is the place chosen on values: the current node if that is an open enter, or the thread; with nested records this is the innermost open call |
| `FlowTree.EnterHangs` | FlowTrace/LogData.cpp:158-168 | on the links: with nested records an enter hangs under the innermost open call or the thread |
| `FlowTree.ExitPeers` | FlowTrace/LogData.cpp:169-186 | on the links: with nested records an exit and the innermost open call are each other's peer |
| `FlowTree.AnyExitPeers` | FlowTrace/LogData.cpp:169-198 | on the links and for any records: which enter an exit is paired with, when it has no peer, and where it hangs then |
| `FlowTree.AnyEnterHangs` | FlowTrace/LogData.cpp:158-168 | on the links and for any records: where an enter hangs |
| `FlowTree.OneCurrentNode` | FlowTrace/LogData.cpp:150-157 | on the links and for any records: there is exactly one current node for each record but the first, which hangs under the thread |
| `FlowTree.CurrentReachesThread` | FlowTrace/LogData.cpp:171-186 | on the links: the chain from `curentFlow` ends at the thread, so the search terminates |
| `RowTrees.SubtreeTogether` | FlowTrace/LogData.cpp:519-563 | the rows of a visible subtree stand together |
| `RowTrees.ChildRow` | FlowTrace/LogData.cpp:519-563 | where each child of an expanded node appears in the preorder |
| `TreeView.RowsDistinct` | FlowTrace/LogData.cpp:519-563 | no node is shown twice |
| `TreeView.ViewNested` | FlowTrace/LogData.cpp:519-563 | how rows and subtree sizes of a node, its parent, its next sibling and its first child fit together |
| `TreeView.CalcLines` | FlowTrace/LogData.cpp:519-563 | the walk along the links ends, numbers the visible preorder 0, 1, 2, ..., leaves on each visible node its number of visible proper descendants, and leaves hidden nodes alone |
| `TreeView.Number` | FlowTrace/LogData.cpp:519-563 | the loop itself, for any well-linked tree |
| `TreeView.Climb` | FlowTrace/LogData.cpp:541-560 | climbing adds each finished subtree to its parent once and stops at the next row or the root |
| `TreeView.GetTreeNode` | FlowTrace/LogTreeView.cpp:303-366 | for every row the search ends with the node of that row; it ends too for other rows and with row numbers out of date, and always gives the depth of the node it returns |
| `TreeView.SkipChanks` | FlowTrace/LogTreeView.cpp:326-331 | following the skip chain never passes the row looked for |
| `TreeView.SkipSiblings` | FlowTrace/LogTreeView.cpp:324-338 | nor does following the siblings afterwards, and it moves on |
| `Collapse.CollapseExpandAll` | FlowTrace/LogData.cpp:565-599 | exactly which nodes are set, to "has a child and expand", before all rows are numbered again |
| `Collapse.RoundTrip` | FlowTrace/LogData.cpp:568-596 | the round trip ends, also where it goes through the whole tree |
| `Collapse.ScopeIsSubtree` | FlowTrace/LogData.cpp:565-599 | the nodes set are the node and its descendants if and only if it has a child or is the root |
| `PtrArrays.PtrArray.constructor` | FlowTrace/Buffer.h:152-165 | an empty sequence, full at once if a first table is missing |
| `PtrArrays.PtrArray.AddPtr` | FlowTrace/Buffer.h:167-204 | appends or changes nothing readable; with memory that never fails it appends exactly while there are fewer than 4294901506 pointers |
| `PtrArrays.PtrArray.MakeRoom` | FlowTrace/Buffer.h:172-197 | which tables are open is a function of the number of pointers, although the cursors run ahead |
| `PtrArrays.PaceStep` | FlowTrace/Buffer.h:172-197 | when each cursor opens a table, and that the first table is exhausted exactly at capacity |
| `PtrArrays.PtrArray.Get` | FlowTrace/Buffer.h:260-278 | the i-th pointer, or null from the count on |
| `PtrArrays.PtrArray.Set` | FlowTrace/Buffer.h:241-258 | replaces the i-th pointer and nothing else |
| `PtrSorts.Sort` | FlowTrace/Buffer.h:280-303 | for every seed, overflows of the stack included: always a permutation, and sorted under any strict weak order when it returns; it returns within n - 1 partitions, one more for each that makes no progress and 64 more for each reset of the stack |
| `PtrSorts.StepSound` | FlowTrace/Buffer.h:280-303 | whatever comes next, what is left of `left` stays sorted and in its place, and the array stays split at every end put aside |
| `PtrSorts.SortCost` | FlowTrace/Buffer.h:280-303 | a finished sort took n - 1 partitions and 64 for each reset, and at most one more for each partition without progress; up to 65 entries it never resets the stack if every partition makes progress |
| `PtrSorts.EvenNeverStallsTwice` | FlowTrace/Buffer.h:287-288 | a range of even length makes progress at least every second time |
| `PtrSorts.StallsEnd` | FlowTrace/Buffer.h:284-298 | a range cannot go 2^32 partitions without progress |
| `PivotSeeds.SeedsReachZero` | FlowTrace/Buffer.h:288 | from any seed the generator comes to zero within 2^32 steps, so the first entry gets its turn as pivot |
| `PtrSorts.Narrow` | FlowTrace/Buffer.h:284-298 | the loop goes on with the run, one partition at a time, until the range has at most one entry |
| `PtrSorts.Divide` | FlowTrace/Buffer.h:285-297 | one round of it is a move of the run, also when the full stack is reset |
| `PtrSorts.Partition` | FlowTrace/Buffer.h:285-297 | splits the range around a pivot in it, moving nothing outside; the split lies at the end of the range if and only if the pivot is the only greatest entry and stands last, and then nothing has moved |
| `PtrSorts.SplitOff` | FlowTrace/Buffer.h:284-298 | the range that remains is as long as before if and only if the partition stalls so |
| `PtrSorts.Round` | FlowTrace/Buffer.h:288-296 | one pair of scans and an exchange keep both sides right |
| `PtrSorts.ScanRight` | FlowTrace/Buffer.h:289 | the unguarded scan stops inside the range |
| `PtrSorts.ScanLeft` | FlowTrace/Buffer.h:290 | likewise from the other side |
| `PtrSorts.PartedSplits` | FlowTrace/Buffer.h:285-297 | a partition splits the whole array between the two parts |
| `PtrSorts.Swap` | FlowTrace/Buffer.h:305-310 | exchanges two entries; a position from the count on reads as null and is not stored to |
| `MemBufs.EndsExactly` | FlowTrace/Buffer.h:9-16 | the sizes tried fall below the minimum if and only if it is above five, or above one with a size below five |
| `MemBufs.FourFifths` | FlowTrace/Buffer.h:13 | each size tried is four fifths of the one before, rounded down to one more than a multiple of four |
| `MemBufs.Malloc` | FlowTrace/Buffer.h:4-19 | wherever the retries come to an end: tries those sizes down to the minimum and gives a block of one of them, or leaves the heap as it was |
| `MemBufs.MemBuf.constructor` | FlowTrace/Buffer.h:24-35 | the number of chunks with its 32-bit cut, and a first chunk that is taken whole at once |
| `MemBufs.ChunksCover` | FlowTrace/Buffer.h:28 | the chunks have room for the whole buffer if and only if their number is not cut |
| `MemBufs.MemBuf.AllocHere` | FlowTrace/Buffer.h:101-130 | the next block of the current chunk, or why there is none; a chunk from the heap has `m_allocSize` bytes, or those of the block if they are more |
| `MemBufs.MemBuf.Alloc` | FlowTrace/Buffer.h:75-95 | null exactly when the buffer is exhausted, and then until `Free`; unless the heap failed, exactly when the block fits neither here nor in a next chunk; a further chunk is opened exactly when the block and those of the present chunk have more bytes than that |
| `MemBufs.MemBuf.UsedUp` | FlowTrace/Buffer.h:75-130 | when the buffer is exhausted and the heap never failed, more than `m_allocSize` bytes of any two neighbouring chunks have been handed out, and so at least half of the buffer |
| `MemBufs.MemBuf.Free` | FlowTrace/Buffer.h:47-68 | the heap gets back every chunk but the first, each once, and the counters start again |
| `MemBufs.MemBuf.Destroy` | FlowTrace/Buffer.h:37-45 | the heap is left as it was without the buffer |
| `MemBufs.BlocksApart` | FlowTrace/Buffer.h:101-130 | blocks handed out since the last `Free` are pairwise disjoint and lie inside their chunk |
| `Traces.ThreadNode.AddTrace` | FlowTrace/Archive.cpp:429-569 | the thread's text grows by the piece less one line feed or carriage return; the node is continued exactly if it is open, has room and may be; a node that had its line break, and every earlier node, keeps its text |
| `Traces.ThreadNode.Decide` | FlowTrace/Archive.cpp:441-456 | when a piece continues the last node and when it closes it |
| `Traces.ThreadNode.GetLastChunk` | FlowTrace/LogData.h:295 | the walk ends at the thread's newest chunk |
| `Traces.ThreadNode.AppendChunk` | FlowTrace/Archive.cpp:464-476 | chains a chunk, or changes nothing if there is no memory |
| `Traces.ThreadNode.StartNode` | FlowTrace/Archive.cpp:477-559 | a new node with one chunk, or nothing |
| `Traces.OneMoreChunk` | FlowTrace/Archive.cpp:464-476 | the length bounds of a node and the layout of all text survive one more chunk |
| `Traces.FitsBuffer` | FlowTrace/LogData.cpp:349 | a node's text is never longer than 2*1600-1 bytes |
| `Traces.GetListText` | FlowTrace/LogData.cpp:447-476 | shows exactly the node's text and never takes the over-length branch |
| `Traces.NodesTile` | FlowTrace/Archive.cpp:429-569 | the nodes' texts in archive order make up all text of the thread |
| `Splitting.AddTraceLoop` | FlowTrace/Archive.cpp:589-600 | a long piece is added in parts of 1600 bytes |
| `Splitting.KeptIsBody` | FlowTrace/Archive.cpp:589-600 | cutting a piece into such parts loses nothing if only its last byte may be a line break |
| `Splitting.KeptIs` | FlowTrace/Archive.cpp:589-600 | of any long piece exactly the line breaks at its end and at the ends of its 1600-byte parts are lost |
| `Splitting.ParceCollor` | FlowTrace/Archive.cpp:571-587 | reads a number of at most two digits and keeps it if it is a colour |
| `Splitting.SkipEscape` | FlowTrace/Archive.cpp:644-663 | where an escape ends and which colour it leaves |
| `Readings.EscapeStops` | FlowTrace/Archive.cpp:644-663 | an escape never takes the final line break with it |
| `Splitting.EndAtBreak` | FlowTrace/Archive.cpp:637-643 | adds the piece and skips all line breaks, and stops at the terminator |
| `Splitting.EndAtEscape` | FlowTrace/Archive.cpp:644-669 | adds the piece before the escape |
| `Splitting.EndAtControl` | FlowTrace/Archive.cpp:675-682 | adds the piece before the byte and the byte in hexadecimal |
| `Splitting.AddRecord` | FlowTrace/Archive.cpp:630-692 | the thread's text grows by what the reading of the record's text displays, the colour is the one that the reading sets, tabs in the buffer become spaces, the terminator is never passed |
| `Splitting.AddTraceOf` | FlowTrace/Archive.cpp:602-696 | the choice between raw and split records, and what each adds to the thread's text |
| `Splitting.AddRecordOf` | FlowTrace/Archive.cpp:602-696 | a record's text goes to its own thread; all other threads keep theirs |
| `Splitting.AddRecords` | FlowTrace/Archive.cpp:602-696 | over any run of records for any number of threads in any order each thread's text grows by what its own records add, in order of arrival, if the memory suffices |
| `Readings.CleanIsPrintable` | FlowTrace/Archive.cpp:634-684 | a cleaned text has printable bytes only |
| `Readings.ReadingShows` | FlowTrace/Archive.cpp:634-684 | what is kept of a text is what its tokens display: printable bytes as they are, a space for a tab, nothing for line breaks and escapes, and for any other byte its two hexadecimal digits; the colour is the first one among the decimal parameters of escapes that end in m |
| `Readings.HasReading` | FlowTrace/Archive.cpp:634-684 | every text can be read as such tokens |
| `LineSplitters.LogParcer.GetLine` | FlowTrace/LogParcer.h:24-65 | one call completes at most one line, the one the byte-by-byte reading gives, and makes progress |
| `LineSplitters.HandleLogData` | FlowTrace/LogReceiverAdb.cpp:320-336 | the loop ends and passes on exactly the lines that the chunk completes; each ends in a line feed and holds no line feed or carriage return before it |
| `LineSplitters.LinesPlus` | FlowTrace/LogParcer.h:24-65 | cutting a stream in two makes no difference |
| `LineSplitters.CutsDoNotMatter` | FlowTrace/LogReceiverAdb.cpp:320-336 | nor does cutting it into any number of chunks |
| `LineSplitters.LinesAreSegments` | FlowTrace/LogParcer.h:24-65 | the lines are the non-empty segments between line breaks, longer ones cut every buffer size |
| `LineSplitters.NothingLost` | FlowTrace/LogParcer.h:24-65 | the lines and what is pending are the stream without its line breaks |
| `LineSplitters.LinesAreClean` | FlowTrace/LogParcer.h:24-65 | no line is empty or holds a line feed or carriage return |
| `Replays.MetaDataParser.Accept` | FlowTrace/LogReceiverAdb.cpp:259-301 | the assignments compute the transition on values, and count what is skipped |
| `Replays.TimesNeverDecrease` | FlowTrace/LogReceiverAdb.cpp:259-301 | for any headers the accepted times never decrease |
| `Replays.OneSession` | FlowTrace/LogReceiverAdb.cpp:259-301 | what one replay lets through, from any state, when it leaves no gap |
| `Replays.ExactlyOnce` | FlowTrace/LogReceiverAdb.cpp:259-301 | over a run of replays the new headers pass once each and in order if and only if no replay repeats the last one |
| `Replays.OverlappingReplays` | FlowTrace/LogReceiverAdb.cpp:259-301 | if every replay starts before the last accepted header and runs past it, the device log passes once and in order |
| `Replays.TiedReplay` | FlowTrace/LogReceiverAdb.cpp:259-301 | where headers may have equal times: what a replay that starts before all of the last time lets through, and the state it leaves, from any such state |
| `Replays.TiesRepeat` | FlowTrace/LogReceiverAdb.cpp:259-301 | a log read and then replayed from earlier on passes once and in order if and only if the headers read last with the same time are all the same |
| `Replays.TiedRun` | FlowTrace/LogReceiverAdb.cpp:259-301 | over any run of such replays: how many headers pass again, and that the new ones pass once and in order if and only if none does |
| `Replays.EndingAtTheLast` | FlowTrace/LogReceiverAdb.cpp:264-272 | two replays that end exactly at the last header let it through twice |
| `Packets.Recorder.GetApp` | FlowTrace/Archive.cpp:294-349 | finds the application of the process, or adds it with nothing known of its packets and records |
| `Packets.Recorder.AppendRec` | FlowTrace/Archive.cpp:776-818 | takes the record unless its packet is not newer, and keeps the last record number and the count of lost records; other applications are untouched |
| `Packets.Recorder.AppendNet` | FlowTrace/Archive.cpp:733-742 | which records are invalid, by their lengths, and that such a record changes nothing |
| `Packets.Recorder.RecordNetPack` | FlowTrace/LogRecorder.cpp:6-28 | success means the records tile the data exactly; what every application is afterwards, whichever ones the records belong to |
| `Packets.RecordsStand` | FlowTrace/LogRecorder.cpp:6-28 | the records taken from a packet are those that stand one after the other from its start, each valid and within the data, up to where none does |
| `Packets.MixedPacket` | FlowTrace/Archive.cpp:788-796 | of a packet of any applications, everything from the first record on that is new to its application is taken, and only that application keeps the number |
| `Packets.RepeatedMixed` | FlowTrace/Archive.cpp:788-796 | such a packet adds nothing when it arrives again if and only if all that was new in it belonged to one application |
| `Packets.UniformTaken` | FlowTrace/Archive.cpp:776-818 | a packet of one application is taken as if there were no other |
| `Packets.Recorder.OnPaused` | FlowTrace/Archive.cpp:34-43 | forgets the packet and record numbers of all applications and nothing else |
| `Packets.WholePacket` | FlowTrace/Archive.cpp:788-796 | a numbered packet is taken as a whole or not at all |
| `Packets.MaximaAreTaken` | FlowTrace/Archive.cpp:788-796 | in any arrival order exactly the packets whose number exceeds all before them are taken |
| `Packets.Receive` | FlowTrace/LogRecorder.cpp:6-28 | between two pauses the recorder itself takes, for every application, the records of exactly those packets, whatever else arrives, and counts as lost what their numbers say |
| `Packets.NoneLost` | FlowTrace/Archive.cpp:800-818 | records numbered in sequence are not counted as lost |
| `Packets.LostInPacket` | FlowTrace/Archive.cpp:800-818 | the records of a packet add to the lost ones the sum of all differences between successive numbers, less one for each step to the next number, modulo 2^32 |
| `Packets.LostInRun` | FlowTrace/Archive.cpp:800-818 | and so do those taken over any run of packets |
| `Packets.RisingTravels` | FlowTrace/Archive.cpp:800-818 | for numbers that never fall that sum is the last number less the one before the run |
| `Packets.RepeatedPacket` | FlowTrace/Archive.cpp:788-796 | a packet that arrives again adds nothing |
| `SubstringSearch.FindStr` | FlowTrace/Helpers.cpp:321-416 | the least position where the needle occurs under the chosen case folding, and none exactly if there is none |
| `SubstringSearch.FirstOf` | FlowTrace/Helpers.cpp:337-343 | the first place of the needle's first character |
| `SubstringSearch.CompareRest` | FlowTrace/Helpers.cpp:381-408 | the unrolled comparison decides whether the needle stands there |
| `SubstringSearch.ExactMatch` | FlowTrace/Helpers.cpp:321-416 | with case mattering, an occurrence is the needle's own text |
| `SubstringSearch.FoldedMatch` | FlowTrace/Helpers.cpp:321-416 | without case an occurrence is the needle's text but for the case of its letters |
| `SubstringSearch.CaseDoesNotMatter` | FlowTrace/Helpers.cpp:321-416 | and the search finds the same whatever the case of any letter in either text |
| `Listing.ListedNodes.AddNode` | FlowTrace/Archive.h:315-322 | appends the node if it is wanted, unless the list is full, which goes unnoticed |
| `Listing.ListedNodes.FreeListedNodes` | FlowTrace/Archive.h:298-304 | an empty list |
| `Listing.ListedNodes.UpdateList` | FlowTrace/Archive.cpp:866-884 | a full list holds the first of the wanted nodes; otherwise after an incremental update the list is the filtered archive if and only if it was before, as far as it went, by the present filter |
| `Listing.ListedNodes.UpdateAll` | FlowTrace/Archive.cpp:866-884 | after any run of updates of the list itself, it is the filtered archive, if what the filter looks at did not change for nodes already looked at since the last reset; when it is full it holds the first nodes of that, and it never gets full while memory lasts and archives fit |
| `Listing.FilteredIs` | FlowTrace/Archive.h:311-322 | which nodes the filtered archive consists of, in terms of their fields |
| `Listing.TracesRemain` | FlowTrace/Archive.h:311-314 | hiding calls leaves exactly the traces of the list |
| `Listing.HidingRemoves` | FlowTrace/Archive.h:311-314 | hiding threads removes exactly their nodes |
| `Listing.FoundRemain` | FlowTrace/Archive.h:315-322 | the search filter leaves exactly the nodes that were found |
| `Listing.ListIsFilteredArchive` | FlowTrace/Archive.cpp:866-884 | what a run of updates makes of the list on values is the filtered archive under that condition |

## Left out

- `PtrSorts.Sort`: the number of partitions is bounded by a parameter, and the result tells whether it sufficed, as it does when it covers the stalls and the resets of the run. Whether an array of more than 65 entries can have the full stack reset for ever, for some seed, is not decided; a single range cannot stall for ever (`PtrSorts.StallsEnd`).
- `MemBufs.Malloc`: demands a size and a minimum for which the retries come to an end whatever the heap answers, as `MemBufs.ComesToAnEnd` says; for the others the loop goes on until the heap gives in. So do `MemBufs.MemBuf.Alloc` and the constructor, where this shuts out chunks of exactly one or five bytes.
- `MemBufs.MemBuf.Destroy`: says nothing of the table of chunks itself, which comes from `calloc` and which the destructor does not free.
- The contents of allocated memory and the zeroing on request are not modelled; the pointer table is proved without relying on them.
- Tables of the pointer array are objects holding a sequence of 256 entries, not blocks of a `MemBuf`.
- The allocation of nodes in the call tree does not fail in the model; a failed one leaves the tree as it was, since the program returns before linking.
- Trace nodes are modelled with their chunks in `Traces.dfy`, apart from the class of the tree nodes; a trace node is not linked into the tree, it only has a parent (`FlowTree.TraceParent`).
- Colour and priority of a trace node: the colour that the splitting loop computes is modelled, its being copied to a node is not.
- The splitting loop on a text that does not end in a line break, where it also emits the terminator; and bytes above 127 in the substring search, where case folding depends on the C library.
- Applications are values in a list in `Packets.dfy`, so their identity is not modelled there; a failed allocation of one and the total of lost records over all applications are left out.
- `Packets.Receive`: takes packets of one application each; what one packet of several applications leaves behind is stated by `Packets.MixedPacket`.
- `Replays.ExactlyOnce`: supposes a log whose times strictly increase; `Replays.TiedRun` deals with equal times for replays that start before all headers with the time of the last one.
- `Packets.Recorder.AppendRec`: counts a record that names its thread among those taken, although the program makes no node for it; what it does with a record afterwards (threads, names, Java outer records) is not part of it.
- `LogReceiver::working()` is taken to hold while a chunk is fed.
- The parsing of header lines: the model starts from the numbers read.
- The cache of `getThread`, `setPsInfo`, the search and colouring of text, export and import, symbol resolution, selection, settings, windows, sockets, serial ports and the OS threads.
- The `LogRecorder` ring, which is compiled out.
