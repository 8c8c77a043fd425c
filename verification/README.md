# libcplus: a verified model

A Dafny model of the core of libcplus, a C runtime library, with proofs of what its pieces promise:

- **IPC framing** (`src/ipc_server.c`): the frame that `ipc_send_packet` writes, the incremental parser
  `ipc_packet_analyze` over the 512-byte receive buffer that `ipc_conn_proc` refills and rewinds, and the synchronous
  request that waits for its reply.
- **The fixed-block allocator** (`src/mempool.c`), whose free list runs through the free blocks and is written lazily.
- **The linked list** (`src/llist.c`) with its nodes in such a pool and a cached cursor that points to a link, not to a
  node; searching, sorting, and the keyed operations on top.
- **Events, tasks and the task pool** (`src/pevent.c`, `src/task.c`, `src/taskpool.c`) as threads whose atomic steps
  interleave.
- **The debug allocator** (`src/memmgr.c`) with its records and boundary tags.

`dafny verify dfyconfig.toml` checks everything. No proof relies on automatic induction over a lemma's parameters.

## How it is built

| file | what it holds |
|---|---|
| `Words.dfy`, `Runs.dfy`, `Arithmetic.dfy` | bytes; runs of a step function; division with remainder |
| `IpcWire.dfy` | packets, frames, `ipc_send_packet` |
| `IpcParser.dfy` | the receiver one byte at a time: the reference for the block-copying loop |
| `IpcRoundTrip.dfy` | what the reference makes of every prefix of a frame and of a stream |
| `IpcSoundness.dfy` | what it makes of bytes that are no frames |
| `IpcReceiver.dfy` | a chunk at a time, in the receive buffer: the reference for `ipc_conn_proc`, and the round trip |
| `IpcStaleBytes.dfy` | a run in which stale bytes go unnoticed |
| `IpcConnection.dfy` | `struct ipc_conn` and its functions, updating it in place |
| `IpcClient.dfy`, `IpcWait.dfy` | the synchronous request; when it finds its reply, and what ends it without |
| `MemPool.dfy` | the allocator |
| `ListShape.dfy`, `ListCursor.dfy` | node chains in pool memory; the cursor apart from the nodes |
| `LinkedList.dfy` | `struct linked_list` and its functions |
| `ListRuns.dfy`, `ListCalls.dfy` | whole runs against a plain sequence; the same for the list in memory, and what a cursor that is off leads to |
| `BubbleSort.dfy`, `KeyedList.dfy` | the sort; the keyed operations |
| `PEvent.dfy`, `TaskLoop.dfy` | events; the worker loop and those who control it |
| `TaskPool.dfy`, `TaskPoolAlone.dfy` | the task queue under interleaving; its operations undisturbed |
| `MemTracker.dfy` | the debug allocator |

Structures that the source updates in place are classes here. A method's contract ties the new state to a function of
the old one, and the properties are proved about those functions. What comes from outside is a parameter: `heap(i)` says
whether the i-th allocation is granted, `sends(i)` is what the i-th `send()` returns, and `recv()` delivers the chunks,
failures and elapsed times it is given. The completion callback appends to a log. A pointer to a block is the block's
index (`MemPool.AddressRoundTrip` says when that is right), and a block of pool memory holds nothing yet, the pool's link,
or its owner's value. In the list, the ghost field `drift` is how far the node that `current` leads to is from node number
`cur_index`. Among threads, a step is one access to shared state, or one critical section of a structure that has its own
lock.

## Where the code is followed, and not its comments

- A length above `MAX_PACKET_DATA_SIZE` is said to drop the packet (`src/ipc_server.c:567-572`). The lines after it
  overwrite that, so every length is accepted.
- The payload copy is bounded by the buffer, not by what was received (`src/ipc_server.c:626-628`). A chunk that ends
  inside a payload without filling the buffer makes the receiver take stale bytes. `IpcReceiver.CutInsidePayload` is such
  a case, and `IpcReceiver.DeliverNext` says exactly when it happens.
- A byte that does not fit a tag is not looked at again, so a frame right after a stray first byte of a begin tag is missed
  (`IpcSoundness.StrayByte`).
- The tolerance for late replies never holds once the sequence number has wrapped (`IpcClient.PreviousTolerated`).
- A request with no payload, or one that could not be sent, returns 0 without waiting for anything.
- An insertion or removal reached over `prev` links leaves the cursor one off (`ListCursor.OneStep`,
  `ListRuns.InsertThenGet`).
- A cursor that is off can lead one past either end, where there is no node. There `cplus_llist_push_at` fails although the
  pool has room and loses the block that it has allocated, `cplus_llist_get_of` has nothing at an index in range, and
  `cplus_llist_pop_of` takes nothing and counts one less (`ListCalls.LosesABlock`, `ListCalls.FindsNothing`,
  `ListCalls.Miscounts`). So "a push fails exactly when the pool is full" and "the count is the number of nodes" hold of an
  exact cursor (`ListRuns.KeepsIff`), and in general under the conditions that `PushAt` and `PopOf` state. The ghost field
  `leaked` holds the lost blocks.
- Freeing a free block is not noticed, and breaks the free list (`MemPool.Pool.Free`, `MemPool.FreedTwice`).
- `cplus_mgr_realloc` truncates the size with the tags to 32 bits (`MemTracker.EndTagFits`).
- `cplus_llist_add_data` on a full list returns a value that the list does not hold (`KeyedList.Keyed.AddData`).
- A stop does not wake a loop that is held by a pause (`TaskLoop.StoppedEndsIff`).
- An allocation whose record cannot be allocated is live and not tracked (`MemTracker.Tracker.Malloc`).

## Model

| member | source | states |
|---|---|---|
| IpcWire.SendPacket | src/ipc_server.c:335-391 | A command out of range, or a null pointer to data that is not empty, sends nothing and fails. Any other packet, one without data included, is sent field by field up to the first short or failed send; the result is the length of the data exactly when the whole frame is on the wire, and it is whenever every send is accepted and the data is shorter than 2^31 bytes. |
| IpcWire.BigEndianValue | src/ipc_server.c:367-372 | The four length bytes stand for the length, the first one counting most. |
| IpcParser.FeedKeeps | src/ipc_server.c:498-684 | On arbitrary bytes and whatever the allocator answers: offsets stay in range for their stage, the payload is shorter than the length in the DATA stage, and while the event is set the stage is HEAD and the packet is the last one completed. |
| IpcParser.FeedBlock | src/ipc_server.c:618-645 | Feeding a payload byte by byte does what the block copy does. |
| IpcRoundTrip.LengthBytes | src/ipc_server.c:544-562 | The shift-accumulate loop recovers every uint32 from its four network-order bytes, at each of the four steps. |
| IpcRoundTrip.FramePrefix | src/ipc_server.c:498-684 | The parser's whole state after any number of bytes of a frame, starting between two frames. |
| IpcRoundTrip.StreamPrefix | src/ipc_server.c:498-684 | After any prefix of a stream of frames, exactly the packets whose frames are complete have been handed over, in order; the stage is DATA exactly strictly inside a payload. |
| IpcRoundTrip.DecodeEncode | src/ipc_server.c:335-391 | Decoding inverts encoding for every list of packets, and the parser is ready for the next frame. |
| IpcSoundness.OnlyFrames | src/ipc_server.c:498-684 | On arbitrary bytes, whatever the allocator answers: a packet is completed only by the last byte of its own frame, which is then the end of what has been received. |
| IpcSoundness.FeedWoven | src/ipc_server.c:498-684 | The packets completed on arbitrary bytes are those of frames that lie in them one after the other, without overlap. |
| IpcSoundness.WrongBegin | src/ipc_server.c:527-532 | A wrong byte anywhere in a begin tag takes the receiver back to where it was, and is not looked at again. |
| IpcSoundness.StrayByte | src/ipc_server.c:510-535 | So the begin tag after a stray first byte of one is missed. |
| IpcSoundness.WrongEnd | src/ipc_server.c:673-678 | A wrong byte anywhere in the end tag drops the packet and waits for a new begin tag. |
| IpcSoundness.NoMemory | src/ipc_server.c:612-618 | Without memory for its data a packet is dropped at its first data byte, which is then taken for a byte between frames. |
| IpcReceiver.CopyStep | src/ipc_server.c:626-644 | A block copy that runs past what was received equals feeding the received bytes and then the stale ones up to the end of the payload or of the buffer. |
| IpcReceiver.DeliverKeeps | src/ipc_server.c:686-793 | Any chunk that fits keeps the invariant, the buffer offset within 512, and the log only grows; a payload is left unfinished only at the end of the buffer. |
| IpcReceiver.FaithfulIff | src/ipc_server.c:626-645 | For any state and chunk: the receiver consumes exactly the received bytes if and only if the chunk fills the buffer or does not leave the parser inside a payload. |
| IpcReceiver.DeliverNext | src/ipc_server.c:626-645 | For a chunk of a stream that began anywhere in the buffer: it is consumed faithfully if and only if the cut is at a buffer end or not strictly inside a payload. |
| IpcReceiver.DeliverRest | src/ipc_server.c:696-705 | From any faithful position of a stream that began anywhere in the buffer, chunks cut cleanly fit the buffer as the receiver leaves it, and it stays faithful. |
| IpcReceiver.RoundTrip | src/ipc_server.c:335-391 | The round trip under chunking: a receiver between two frames, wherever it stands in its buffer, completes exactly the packets sent, once each and in order, over any chunks that fit the buffer and are not cut inside a payload (unless they fill the buffer). |
| IpcReceiver.FreshRoundTrip | src/ipc_server.c:335-391 | The same on a new connection. |
| IpcReceiver.NoStaleIff | src/ipc_server.c:626-645 | Over every run on a stream, nothing but received bytes is consumed if and only if every cut is clean. |
| IpcReceiver.CutInsidePayload | src/ipc_server.c:626-628 | A packet of two data bytes cut between them is lost on a new connection. |
| IpcStaleBytes.CutInsidePayloadUnnoticed | src/ipc_server.c:626-645 | A run on a new connection, cut inside a payload within the first 512 bytes, that completes all packets nonetheless: clean cuts are not necessary for that. |
| IpcConnection.Conn.constructor | src/ipc_server.c:795-882 | A new connection is the fresh receiver, not connected yet; the event belongs to a synchronous one. |
| IpcConnection.Conn.Connect | src/ipc_server.c:926 | Setting up the connection changes its status and nothing that the receiver sees. |
| IpcConnection.Conn.TakeBegin | src/ipc_server.c:510-535 | The HEAD stage is one step of the reference: it lowers the event at the last byte of the begin tag and starts over at a wrong byte. |
| IpcConnection.Conn.TakeField | src/ipc_server.c:536-562 | The SEQN, CMD and DATA_LEN stages are steps of the reference, with the length kept to 32 bits. |
| IpcConnection.Conn.LeaveLength | src/ipc_server.c:563-583 | Leaving the length field leads to DATA or TAIL by whether the length is zero; the limit on lengths makes no difference. |
| IpcConnection.Conn.PreparePayload | src/ipc_server.c:585-621 | Asking for a payload buffer when it is missing or too small, or dropping the packet when there is no memory. |
| IpcConnection.Conn.CopyPayload | src/ipc_server.c:622-645 | The copy stays inside both buffers, moves both offsets by the smaller of what is left of payload and buffer, appends exactly that block, and makes progress. |
| IpcConnection.Conn.TakeEnd | src/ipc_server.c:647-681 | The last byte of the end tag hands over the packet with the data of the payload buffer and raises the event. |
| IpcConnection.Conn.Analyze | src/ipc_server.c:498-684 | The loop ends, by bytes left and stage rank, with every buffer access in bounds, in the state that the byte-wise reference reaches. |
| IpcConnection.Conn.Receive | src/ipc_server.c:701-705 | Receiving into the buffer at its offset and analyzing refines the receiver's Deliver. |
| IpcConnection.Conn.Stop | src/ipc_server.c:707-781 | Shutdown and each error: the new status, error and socket, and the one notice that the callbacks get; the receiver is as it was. |
| IpcConnection.Conn.Proc | src/ipc_server.c:686-793 | One receive: rewinding, then for data, shutdown and each error the new status, error, socket, notices and view; nothing at all on a connection that is lost. |
| IpcClient.ToleratedIff | src/ipc_server.c:1066-1089 | A reply that is not the request's is dropped, and waiting goes on, if and only if its number is one or two below the request's without a wrap. |
| IpcClient.PreviousTolerated | src/ipc_server.c:32-33 | The reply to the previous request is tolerated if and only if the sequence number has not just wrapped. |
| IpcClient.NextSeqnCounts | src/ipc_server.c:32-33 | The sequence numbers count up modulo 256. |
| IpcClient.AwaitSound | src/ipc_server.c:1018-1091 | For any stream of stale replies, garbage and cuts, a request succeeds only with the last packet completed during its wait, whose number is the request's. |
| IpcWait.FirstRound | src/ipc_server.c:1020-1090 | What one round decides: no bytes or no time left ends the wait without the reply, its own number with it, any other number than one or two behind without it, and the wait goes on otherwise. |
| IpcWait.WaitsOn | src/ipc_server.c:1041-1081 | Rounds that are passed over in time leave the wait with the time and the rounds that remain. |
| IpcWait.WaitEnds | src/ipc_server.c:1025-1090 | How any wait ends after such rounds: with the reply, too late, without bytes, or with a packet that is neither the reply nor close enough. |
| IpcWait.AwaitIff | src/ipc_server.c:1018-1091 | A request finds its reply if and only if it comes with some round before the time is up, after rounds that are passed over. |
| IpcClient.QuietFeed | src/ipc_server.c:515-520 | The event is driven by the parser and never drives it. |
| IpcClient.ReplyIsFound | src/ipc_server.c:1018-1091 | A request on a connection between two frames, wherever it stands in its buffer and whatever it has received before, succeeds with its reply when only tolerated stale packets come before it, in clean cuts and in time. |
| IpcClient.ReplyIsFoundFrom | src/ipc_server.c:1018-1091 | The same from the middle of a stream, where the packets completed before the wait may be any. |
| IpcClient.Client.TakeTurn | src/ipc_server.c:1020-1090 | One turn of the receive loop is one Turn of the reference. |
| IpcClient.Client.ReceiveReply | src/ipc_server.c:1018-1091 | The receive loop on the connection is the reference's Await. |
| IpcClient.Client.SendRequest | src/ipc_server.c:990-1117 | The whole request: what is on the wire, when it returns 0 at once, and otherwise the length and the copied data of a packet with the request's number, or CPLUS_FAIL; a connection that was lost before yields no reply. |
| MemPool.AddressRoundTrip | src/mempool.c:40-48 | Index and address are inverse if and only if the byte offset fits 32 bits. |
| MemPool.InitializeOne | src/mempool.c:92-97 | The block whose link is written lazily is free: it lies in the virgin suffix, at or behind its start. |
| MemPool.PopHead | src/mempool.c:99-107 | The head that is popped lies below the initialization frontier, its link was written and leads to the rest of the chain. |
| MemPool.PushBlock | src/mempool.c:69-78 | A block given back lies before the virgin suffix and its link leads to the chain so far. |
| MemPool.Pool.constructor | src/mempool.c:186-220 | All blocks are free, the lowest first, with no link written yet. |
| MemPool.Pool.Initialize | src/mempool.c:92-97 | No allocated block is written. |
| MemPool.Pool.Alloc | src/mempool.c:83-115 | Pops the stack of free blocks, which is the stack of the whole history of calls; fails exactly when it is empty, and no allocated block changes. |
| MemPool.Pool.Free | src/mempool.c:63-81 | Pushes any block of the pool, and no allocated block changes; the free list stays one if and only if the block was allocated. |
| MemPool.FreedTwice | src/mempool.c:69-78 | Freeing any free block again closes the list to a cycle through it. |
| MemPool.Pool.Write | src/mempool.c:40-43 | An owner may write anything to an allocated block without disturbing the free list. |
| ListShape.LinkNode | src/llist.c:387-431 | Splicing a detached node in at any place gives the doubly linked chain, and the data, with it inserted there. |
| ListShape.UnlinkNode | src/llist.c:331-373 | Leading the neighbours past a node gives the chain, and the data, without it. |
| ListShape.RemoveInserted | src/llist.c:331-439 | Removing at the place of an insertion undoes it. |
| ListShape.SlotAfterInsert | src/llist.c:417-430 | After an insertion a next-link slot finds the inserted node, a prev-link slot the one after it. |
| ListShape.SlotAfterRemove | src/llist.c:364-372 | After a removal a next-link slot finds the following node, a prev-link slot the preceding one. |
| ListShape.DerefSlot | src/llist.c:214-217 | Following the slot gives the node at its position, and none one past either end. |
| ListCursor.OneStep | src/llist.c:241-267 | An edit between two nodes keeps the cursor exact if and only if it is not reached from behind; otherwise it is off by one more on insertion and one less on deletion; nothing else worsens it. |
| ListCursor.ExactThroughout | src/llist.c:241-267 | Over every run without edits from behind the cursor is exact at every point. |
| ListCursor.DriftIsBalance | src/llist.c:331-439 | Over every run that follows no null link and keeps the count right, whether or not its walks end at a node, the cursor is off by insertions less deletions from behind since it was last set to the head. |
| LinkedList.List.constructor | src/llist.c:41-78 | An empty list over a pool of the given size. |
| LinkedList.List.NewNode | src/llist.c:110-134 | A detached node, or none exactly when the pool is exhausted; the list is untouched. |
| LinkedList.List.FreeNode | src/llist.c:95-108 | The link that the pool writes into the freed block lands on no node of the list. |
| LinkedList.List.GetNodeOf | src/llist.c:241-267 | The walk from the cached position ends at the node at the index, shifted by what the cursor is off, or at no node one past either end. |
| LinkedList.List.PushNode | src/llist.c:387-439 | All cases of push_at refine one sequence insertion and one move of the cursor, or, where the cursor finds no node, fail and lose the node's block. |
| LinkedList.List.PushAt | src/llist.c:655-675 | Fails if and only if the data is NULL, the index out of range, the pool full, or the index between two nodes leads one past an end; in the last case one block is lost, and the data never changes on failure. |
| LinkedList.List.PushBack | src/llist.c:692-695 | Appends if and only if the pool has a block. |
| LinkedList.List.PopEnd | src/llist.c:331-363 | Popping at either end takes the first or last node and sets the cursor to the head. |
| LinkedList.List.PopInner | src/llist.c:364-385 | Popping between two nodes takes the node that the cursor has found. |
| LinkedList.List.PopOf | src/llist.c:636-653 | Returns and removes the datum at the place, 0 and the size meaning first and last; the list stays valid if and only if the cursor finds a node, and otherwise NULL is returned and the count is one short of the nodes. |
| LinkedList.List.Walk | src/llist.c:269-298 | The shared search ends at the first datum, not NULL, for which the comparator answers 0, with the cursor on it, or on the last node. |
| LinkedList.List.GetIf | src/llist.c:300-329 | Returns the first datum, not NULL, for which the comparator answers 0, and its index; NULL exactly when there is none. |
| LinkedList.List.GetSetIf | src/llist.c:474-517 | A new list of the matches in order, without those for whose nodes there is no memory, or none if there is no match. |
| LinkedList.FilterHits | src/llist.c:484-501 | What get_set_if collects are exactly the data, not NULL, for which the comparator answers 0, in order. |
| LinkedList.GrantedHits | src/llist.c:496-500 | And of these exactly the ones whose node there was memory for, in order. |
| LinkedList.List.RemoveNode | src/llist.c:148-186 | Unlinks a node wherever it stands and sets the cursor to the head. |
| LinkedList.List.PopIf | src/llist.c:441-472 | Removes and returns the first datum, not NULL, for which the comparator answers 0; NULL, and nothing removed, exactly when there is none. |
| LinkedList.List.DeleteData | src/llist.c:519-547 | Removes the first element that is this datum and no other, fails exactly when there is none or it is NULL, and leaves the cursor at the head or where the search ended. |
| LinkedList.List.FreeFirst | src/llist.c:697-720 | Each next link is read before the freed block is overwritten. |
| LinkedList.List.Clear | src/llist.c:697-720 | Leaves an empty list with a right count, even from a wrong one, and every block of the pool free that no push has lost. |
| LinkedList.List.GetOf | src/llist.c:600-617 | The datum at the index, shifted by what the cursor is off, or NULL where there is no node. |
| LinkedList.List.GetCurrent | src/llist.c:913-928 | The datum at the cursor, or NULL where it is at no node. |
| LinkedList.List.GetNext | src/llist.c:930-945 | The datum after the cursor, which moves there unless it is at the end. |
| LinkedList.List.GetPrev | src/llist.c:947-962 | The datum before the cursor, which moves there unless it is at the start. |
| LinkedList.List.GetCyclingNext | src/llist.c:964-983 | The datum at the cursor, which moves on, or from the last node to the head. |
| LinkedList.List.CompareAndSwap | src/llist.c:566-580 | One comparison exchanges the data of two neighbours when out of order, and no link. |
| LinkedList.List.Sweep | src/llist.c:561-581 | The inner loop makes as many comparisons as its shrinking bound allows. |
| LinkedList.List.Sort | src/llist.c:549-585 | The list's data becomes BubbleSort.Sort of it, with nodes, count and cursor unchanged. |
| ListRuns.Refines | src/llist.c:241-267 | Over every run without edits from behind the list with its cached cursor gives the results of a plain sequence with a read position, and loses no block. |
| ListRuns.KeepsIff | src/llist.c:364-372 | With an exact cursor nothing is lost or miscounted, and a call follows a null link if and only if it is pop_of with the last index of two or more. |
| ListRuns.InsertThenGet | src/llist.c:417-430 | After any insertion between two nodes get_of with the same index gives what was inserted if and only if it was not done from behind, and else the node that was there. |
| ListRuns.DeleteThenGet | src/llist.c:364-372 | After any deletion between two nodes get_of with the same index gives the next datum if it was not done from behind, and else the one before. |
| ListCalls.PerformAll | src/llist.c:600-983 | Any run of calls on the list in memory, delete_data included, is a run of the model, and of the plain sequence if it has no edits from behind. |
| ListCalls.RoundRobin | src/llist.c:964-983 | On an unmodified list, from any cursor at a node, the k-th cycling fetch returns the k-th datum from there on, counting around. |
| ListCalls.EachOnce | src/taskpool.c:120-143 | Any n fetches in a row return each of the n data exactly once, as a multiset. |
| ListCalls.FetchAll | src/llist.c:964-983 | The same for any number of fetches from the list in memory, which they leave as it is. |
| ListCalls.LosesABlock | src/llist.c:417-430 | Pushes alone lead a new list of ten to a push that fails with half of the pool free and loses a block. |
| ListCalls.FindsNothing | src/llist.c:600-617 | There get_of returns NULL for an index within the list. |
| ListCalls.Miscounts | src/llist.c:364-374 | And pop_of returns NULL and leaves a count one short of the nodes. |
| BubbleSort.PassCarriesMaximum | src/llist.c:561-581 | A pass carries a greatest element of what it has seen to its end, and leaves the rest alone. |
| BubbleSort.LastComparisonIdle | src/llist.c:555-564 | The one comparison that the bound allows too many never changes anything. |
| BubbleSort.SortSorts | src/llist.c:549-585 | With any total preorder the result is sorted. |
| BubbleSort.SortStable | src/llist.c:549-585 | After every pass the data is a permutation in which equivalent elements keep their order. |
| KeyedList.AddIsMapUpdate | src/llist.c:1024-1049 | Adding keeps keys distinct and other keys' entries, and says exactly what is found under the key afterwards. |
| KeyedList.RemoveIsMapRemoval | src/llist.c:1081-1094 | Removing forgets the key and nothing else. |
| KeyedList.OrderKept | src/llist.c:1024-1094 | A new key goes to the end, one that is there stays where it is, and removing one leaves the others in order. |
| KeyedList.RemoveAdded | src/llist.c:1024-1094 | Removing a key just added restores the list. |
| KeyedList.Keyed.FindData | src/llist.c:1051-1056 | The entry of the first match in the list, or none. |
| KeyedList.Keyed.AddData | src/llist.c:1024-1049 | The entries become those of Added; the value returned is in the list unless the list was full. |
| KeyedList.Keyed.RemoveData | src/llist.c:1081-1094 | The entries become those of Removed. |
| PEvent.RunKeeps | src/pevent.c:44-181 | Over all interleavings, spurious wake-ups and timeouts: mutual exclusion, the flag and the results are those of an atomic event, and no wake-up is lost. |
| PEvent.StepLogs | src/pevent.c:44-93 | Each step takes effect at most once; a wait that fails, timed out or not, takes nothing. |
| PEvent.AutoResetTokens | src/pevent.c:75-90 | On an auto-reset event successful waits, plus one if it is set, never exceed the sets. |
| PEvent.BroadcastWaits | src/pevent.c:44-93 | On a broadcast event a wait succeeds only if there was a set since the last reset. |
| PEvent.FailuresOf | src/pevent.c:49-82 | Over all interleavings no wait runs out of time where none is finite, and none finds the event empty or busy where none has a zero timeout. |
| PEvent.WaitCall | src/pevent.c:95-129 | A wait, from the call on, succeeds, fails at once or goes to sleep without the mutex, by the flag and the timeout. |
| PEvent.WaitCallBusy | src/pevent.c:101-114 | While the mutex is held a wait with a zero timeout fails at once, and any other waits for it. |
| PEvent.WokenAlone | src/pevent.c:58-82 | A waiter that has been woken looks again; one whose time is up fails even if the event is set. |
| PEvent.TimesOut | src/pevent.c:68-82 | A finite wait whose time is up fails and takes nothing; time is up for no other. |
| PEvent.WakesUp | src/pevent.c:58-79 | A sleeper that wakes up for no reason takes the flag if it is there, and else sleeps on. |
| PEvent.SetCall | src/pevent.c:153-181 | A set, from the call on, raises the flag and wakes all sleepers, or one. |
| PEvent.ResetCall | src/pevent.c:131-151 | A reset, from the call on, lowers the flag. |
| TaskLoop.StartsBeforeProc | src/task.c:272-277 | proc never begins before start has been signalled. |
| TaskLoop.StartSignals | src/task.c:144-150 | A start signals the start and does nothing else. |
| TaskLoop.StartedCallsProc | src/task.c:272-307 | A task created suspended, neither stopped nor paused, calls proc once it has been started. |
| TaskLoop.NewTask | src/task.c:332-345 | A task that is not created suspended calls proc by itself; one that is waits. |
| TaskLoop.ReachesProc | src/task.c:272-307 | A started loop that is neither stopped nor held by a pause calls proc, wherever it waits. |
| TaskLoop.NeverWithoutStart | src/task.c:178-192 | A suspended task that nobody starts never runs proc, however often it is stopped. |
| TaskLoop.AtMostOneAfterStop | src/task.c:279-307 | Once stop has been signalled at most one further call of proc begins, and only if the loop had passed its probe. |
| TaskLoop.AtMostOneWhilePaused | src/task.c:233-243 | While paused at most one further call of proc begins; a loop that waits there stays. |
| TaskLoop.PauseSignals | src/task.c:233-243 | A pause or resume leaves the task paused or not as asked, whatever it was before. |
| TaskLoop.ResumedCallsProc | src/task.c:281-289 | A loop held by a pause calls proc once it has been resumed. |
| TaskLoop.ExitsOnlyAfterStop | src/task.c:279-307 | A periodic loop is left only once a stop has begun, even if the probe loses its trylock. |
| TaskLoop.OneStopsAtATime | src/task.c:188 | Over all interleavings one thread at a time sets the stop event. |
| TaskLoop.ProbeIff | src/task.c:280 | The probe leaves the loop if and only if the task has been stopped or somebody holds the mutex of the stop event. |
| TaskLoop.TurnCallsProc | src/task.c:279-307 | A loop neither stopped nor paused calls proc once a turn. |
| TaskLoop.Periodic | src/task.c:279-307 | A periodic loop calls proc once a turn, any number of turns. |
| TaskLoop.StopSignals | src/task.c:178-192 | An undisturbed stop of a periodic task leaves both events set. |
| TaskLoop.StopLeaves | src/task.c:178-192 | A stop of a periodic task, from the call on, leaves both events set; of a one-shot task it does nothing. |
| TaskLoop.DurationSet | src/task.c:119-124 | Setting the duration decides whether the loop is one-shot, and changes nothing else. |
| TaskLoop.StoppedEndsIff | src/task.c:279-307 | After a stop the loop, left alone, ends if and only if it is not held by a pause. |
| TaskPool.RunKeeps | src/taskpool.c:112-156 | All the invariants below in every reachable state, for any number of adders, workers, removers and clearers. |
| TaskPool.PlanBlocks | src/taskpool.c:283-293 | An adder that has a block of the pool finds room in the list, so no block leaks. |
| TaskPool.StepCovers | src/semaphore.c:45-63 | Every step keeps the queue covered by permits, refused posts and surplus permits included. |
| TaskPool.NoStrandedTask | src/taskpool.c:112-156 | The queue never outnumbers the permits there are, are held, and are still to be posted. |
| TaskPool.PermitsEarned | src/taskpool.c:302-305 | Over all interleavings there are never more permits, given and still owed, than tasks added so far. |
| TaskPool.TaskConservation | src/taskpool.c:273-350 | Each task added is queued, fetched or removed, once; each fetched is in one worker's hands or executed, once; fetches are in the order of adding. |
| TaskPool.BlocksAccounted | src/taskpool.c:273-308 | Whenever the mutex is free, free blocks and queue make up the configured maximum. |
| TaskPoolAlone.AddCall | src/taskpool.c:273-308 | An add, from the call on, makes the task asked for the newest one exactly below the configured maximum, with one block and one permit; otherwise nothing changes. |
| TaskPoolAlone.WorkCall | src/taskpool.c:112-156 | A worker with a permit, from the call on, executes the oldest task and gives its block back. |
| TaskPoolAlone.RemoveCall | src/taskpool.c:324-350 | A removal, from the call on, takes the newest task that the filter accepts and frees its block, or nothing if it accepts none. |
| TaskPoolAlone.ClearCall | src/taskpool.c:463-480 | A clear, from the call on, removes every task, the oldest first, and frees every block. |
| TaskPoolAlone.Drain | src/taskpool.c:112-156 | When no operation is under way one worker can execute the whole queue, oldest first, with the permits there are. |
| TaskPoolAlone.EveryTaskCanRun | src/taskpool.c:112-156 | From every reachable state in which all threads are idle, one worker can lead to an empty queue with each added task executed or removed, exactly once. |
| MemTracker.AppendIsUpdate | src/memmgr.c:58-98 | A record at the end is one more mapping from address to size. |
| MemTracker.EraseIsRemoval | src/memmgr.c:118-157 | Unlinking an address's record removes its mapping and no other. |
| MemTracker.Tracker.AddMemInfo | src/memmgr.c:58-98 | Appends to the records, through the tail pointer, also when that was left dangling by an emptied list. |
| MemTracker.Tracker.FindMemInfo | src/memmgr.c:99-117 | The first record of the address, or none. |
| MemTracker.Tracker.Unlink | src/memmgr.c:127-148 | The three cases of unlinking all leave the list without exactly that record, with its tail pointer right unless it is empty. |
| MemTracker.Tracker.EraseMemInfo | src/memmgr.c:118-157 | The records without the first one of the address. |
| MemTracker.Tracker.LiveBacked | src/memmgr.c:231-253 | Every tracked allocation has its bytes, with room for both tags. |
| MemTracker.Tracker.CheckBoundary | src/memmgr.c:177-229 | A tracked allocation passes if and only if both its tags are intact; an untracked one always passes. |
| MemTracker.Tracker.Malloc | src/memmgr.c:231-253 | A new tagged allocation and its mapping, or nothing. |
| MemTracker.Tracker.Realloc | src/memmgr.c:254-287 | The old mapping goes in every case; the new allocation is tagged, mapped, and begins with the old bytes. |
| MemTracker.EndTagFits | src/memmgr.c:266-281 | The end tag that realloc writes lies within what was asked for if and only if the size with both tags fits 32 bits. |
| MemTracker.Tracker.Free | src/memmgr.c:387-404 | Passes its own check and removes exactly this mapping and its memory. |
| MemTracker.Tracker.Store | src/memmgr.c:177-229 | A write within the payload leaves every allocation's tags intact. |

## Left out

- LinkedList.List.PushAt: requires that the walk follow no null link before its end, and that an index between two nodes not lead to the first one, whose null `prev` link the source follows; with an exact cursor neither happens.
- LinkedList.List.PopOf: requires the same of the walk, and that an index between two nodes lead neither to the first nor to the last node, whose null links the source follows; with an exact cursor that excludes the index of the last of two or more. What calls do after a miscount is not modelled, except that Clear sets it right.
- LinkedList.List.GetOf: requires that the walk follow no null link before its end.
- LinkedList.List.GetSetIf: memory for the new list itself is granted; without it the source follows a null pointer.
- ListCalls.PerformAll: requires that no call of the run follow a null link, and that none miscount.
- IpcReceiver.RoundTrip: needs memory to be granted; without it a packet is dropped (IpcParser.FeedKeeps). For cuts inside payloads see IpcReceiver.NoStaleIff and IpcStaleBytes.CutInsidePayloadUnnoticed.
- IpcConnection.Conn.TakeEnd: the replies that `packet_analyze_completed` sends and its user callback are not modelled; the packet it gets is recorded.
- IpcConnection.Conn.Proc: the callbacks for disconnection and errors are called whether or not they are set; what they do is not modelled.
- MemPool.Pool.Free: requires a block of the pool; freeing and fetching by index are left out.
- MemTracker.Tracker.Malloc: the size with its tags is not truncated, since the source adds them in 64 bits.
- MemTracker.Tracker.Realloc: requires that the size with its tags fit 32 bits; otherwise the source writes the end tag outside the block (MemTracker.EndTagFits).
- MemTracker.Tracker.Free: requires intact tags, as the source asserts; `check_size`, the reports and the source locations of the records are left out, and so is the build without `__CPLUS_MEM_MANAGER__`.
- ipc: `ipc_recv_packet`, heartbeat and one-way requests, the server's accept loop, and an asynchronous connection that also has an event, which is never created.
- llist: lists with `malloc`ed nodes, the locks, `is_consist`, `update_data` (it appends even when the key exists), and the sort counter with `is_sort`, which does not track sortedness.
- llist, keyed: values are a type and a number; the conversions of `data.c` and keys that are null are left out.
- taskpool: changing the number of workers, workers' own tasks, and the cycling mode beyond its round robin; a task's procedure and callback are one step.
- task: `evt_finish` and waiting for it, cancelling a thread after a timeout, and deleting a task while threads use it.
- pevent: errors of the mutex and the condition variable themselves, named events in shared memory, and deletion.
- mempool: the spinlock; each of its critical sections is one step.
- Counters that are 32 bits wide do not wrap in the model, except where the frame's length field and the pool's addresses are computed.
- The wrappers of sockets, files, shared memory, mutexes, time and the log, and the unit tests.
