# LuaJack, modelled and proved in Dafny

LuaJack binds the JACK audio server to Lua. This project models the parts of it that are data
structures, protocols and algorithms of their own, and proves what they are for:

- the red-black tree and the splay tree of `src/tree.h`, as nodes on the heap with the pointer
  assignments of the macros, against an immutable tree and its key order;
- the four object databases over that tree (clients, ports, threads, ring buffers), each
  client's queue of ports, and the teardown that invalidates records first and frees them last;
- the message protocol over a lock-free byte ring: as operations against a queue of messages, and
  as single steps of one writer and one reader that interleave in any way;
- the event queue with its counter and its wake-up pipe, and the handshake of a client thread with
  its creator and with any number of signallers, as state machines over all interleavings;
- the delay lines of the echo examples, the metronome's process callback on a port's buffer;
- the option parser, the MIDI encoders and decoders, running statistics and timespecs.

Code that changes things step by step is a class or a method here, proved against a function of
the old state; the properties are lemmas about those functions. Protocols are state machines
whose steps are single accesses to shared state, and properties hold in every state of every run.

## How the files hang together

| files | subject |
|---|---|
| `Entries.dfy` | the records and the SIMPLEQ |
| `RbShape.dfy`, `RbBalance.dfy`, `RbRotate.dfy`, `RbSearch.dfy`, `RbRemove.dfy` | trees, contexts, balance and the single steps, on a snapshot of the links |
| `RbTree.dfy` | the red-black tree |
| `SplayTree.dfy` | the splay tree |
| `ObjectDb.dfy`, `Databases.dfy`, `DatabaseModel.dfy`, `DatabaseRuns.dfy` | the databases, teardown, what a script can see of them, whole lives |
| `Bytes.dfy`, `JackRing.dfy`, `Ringbuffer.dfy`, `RingRuns.dfy`, `RingInterleaving.dfy` | the ring |
| `EventProtocol.dfy`, `EventQueue.dfy`, `ThreadHandshake.dfy` | events and threads |
| `DelayLine.dfy`, `Buffer.dfy`, `Metro.dfy` | streams |
| `Statistics.dfy`, `Timespec.dfy`, `Getopt.dfy`, `GetoptRoundTrip.dfy`, `Midi.dfy` | arithmetic and parsers |
| `Sequences.dfy`, `Wrappers.dfy` | overwriting part of a sequence; optional values and results |

`dafny verify dfyconfig.toml` checks all of them.

## Where the code does not do what one would expect

These are results of the model; the code is modelled as it is.

- A positive delay shorter than one sample does not come out as no delay: the C line then delays by
  its whole length (`DelayLine.CLine.On`, with the exact condition; `DelayLine.LateEcho`, an
  instance).
- The wake-up pipe skips a write when full and a read when empty, so that a backlog beyond its
  capacity can leave the main thread asleep beside a queue that is not empty
  (`EventProtocol.LostWakeUp`). A wake-up can be lost within a backlog if and only if that backlog is
  more than the pipe can hold (`EventProtocol.LostExactly`, for a pipe of fewer bytes than a 32-bit
  counter can count). Exceeding it once also puts pipe and queue out of step, which alone need not
  lose a wake-up (`EventProtocol.PipeExact`).
- A session callback whose reply cannot be converted raises an error from inside its handler, which
  leaks the event (`EventProtocol.FreedInOrder`; `EventProtocol.LeakedRun`, an instance).
- The option parser's search through aliases ends if and only if they have no cycle
  (`Getopt.EndsExactly`).
- The option parser remembers an error for ever: after a call that failed, every call with an option
  fails (`Getopt.Parser.GetOrderedOpts`).
- `midi.status` passes its channel check the wrong arguments, so that no channel is refused
  (`Midi.StatusExactly`). The MIDI decoders accept data bytes above 127 and trailing bytes, which
  the encoders would not produce (`Midi.EncodeDecode`).
- A metronome whose wave is empty would loop for ever (`Metro.EndsExactly`).

## Model

| member | source | states |
|---|---|---|
| `Entries.Fifo.InsertTail` | src/queue.h:296-300 | The new entry, and nothing else, joins at the end; the tail address points at the link to be written next, also from empty. |
| `Entries.Fifo.RemoveHead` | src/queue.h:309-312 | Just the first entry goes; the tail address is reset when the queue becomes empty. |
| `Entries.Fifo.RemoveAfter` | src/queue.h:314-318 | Just the entry after the given one goes, the tail address following when that was the last. |
| `Entries.Fifo.Remove` | src/cud.c:124-149 | Exactly one occurrence leaves, wherever it stands, all others keep their order; an absent entry is reported and changes nothing. |
| `RbBalance.HeightBound` | src/tree.h:46-55 | A red-black tree of n entries is at most 2 lg (n+1) high. |
| `RbRotate.RotateLeftTree` | src/tree.h:335-353 | The pointer assignments of the left rotation turn any subtree, anywhere in the tree, into its rotation; parent links included. |
| `RbRotate.RotateRightTree` | src/tree.h:355-373 | The same for the right rotation. |
| `RbTree.RbTree.RotateLeftAt` | src/tree.h:335-353 | On the heap: the subtree becomes its rotation, the rest of the tree and the key order stay. |
| `RbTree.RbTree.RotateRightAt` | src/tree.h:355-373 | The mirror image. |
| `RbRotate.LiftedLeftBalanced` | src/tree.h:416-423 | The two-rotation step of the insertion fix-up restores the colour rules and leaves equal black heights, parent a left child. |
| `RbRotate.LiftedRightBalanced` | src/tree.h:432-439 | The same with the parent a right child. |
| `RbTree.RbTree.InsertStep` | src/tree.h:405-440 | One turn of the insertion fix-up, all six cases: the only fault left is nearer the root, the key order is untouched. |
| `RbTree.RbTree.InsertColor` | src/tree.h:400-443 | From one red entry below a red parent to a red-black tree with a black root, for every shape of tree; the loop ends. |
| `RbTree.RbTree.Insert` | src/tree.h:588-616 | Either the member with the same key comes back and no field of any entry has changed, or no member had the key and exactly the new entry joins a valid red-black tree. |
| `RbRemove.UnlinkTree` | src/tree.h:569-580 | Taking out an entry with at most one child leaves the links of a tree without just that entry. |
| `RbRemove.TransplantTree` | src/tree.h:549-560 | Putting the unlinked successor in the removed entry's place copies links and colour, not keys: the same tree with another entry at that place. |
| `RbRemove.SuccessorSpec` | src/tree.h:531-560 | Unlinking the leftmost entry of the right subtree and putting it in the removed entry's place keeps the order, less the removed entry. |
| `RbRemove.SuccessorBalanced` | src/tree.h:531-560 | After that transplant at most one black is missing, and where. |
| `RbRemove.LoweredLeftBalanced` | src/tree.h:451-456 | A red sibling turned away: black heights as before, the hole one level lower under a red parent. |
| `RbRemove.RepairedLeftBalanced` | src/tree.h:464-481 | The last rotation of the removal fix-up makes up the missing black. |
| `RbRemove.RecolouredBalanced` | src/tree.h:458-463 | Recolouring a black sibling without red children moves the hole one level up. |
| `RbTree.RbTree.RemoveStepLeft` | src/tree.h:448-482 | One turn of the removal fix-up with the hole on the left, every case: done and balanced, or the same hole strictly nearer its end. |
| `RbTree.RbTree.RemoveStepRight` | src/tree.h:482-515 | The mirror image. |
| `RbTree.RbTree.RemoveColor` | src/tree.h:444-518 | From a tree that lacks one black at one place to a red-black tree, key order untouched; the loop ends. |
| `RbTree.RbTree.RemoveInner` | src/tree.h:529-568 | Removal of an entry with two children: its successor is moved, every other member keeps its identity, and exactly the right black may be missing. |
| `RbTree.RbTree.Remove` | src/tree.h:520-585 | The members become the old ones without the one removed, the tree is again a valid red-black tree, and the entry itself comes back. |
| `RbTree.RbTree.Find` | src/tree.h:619-633 | The member with the key if there is one, null if there is none; the loop turns once for each entry on the way from the root, which is at most 2 lg (n+1). |
| `RbTree.RbTree.NFind` | src/tree.h:637-655 | The least member not below the key, null if all are below; the same turns, within the same bound. |
| `RbTree.RbTree.Next` | src/tree.h:658-677 | The next member in key order, down or up the tree, null after the last. |
| `RbTree.RbTree.Prev` | src/tree.h:680-699 | The previous member in key order, null before the first. |
| `RbTree.RbTree.MinMax` | src/tree.h:701-714 | The first member for a negative argument, the last otherwise, null in an empty tree. |
| `RbTree.RbTree.Walk` | src/cud.c:46-49 | From first(0) by next: every member exactly once in increasing key order, and then the end. |
| `RbTree.NextThenPrev` | src/tree.h:658-699 | Going to the next member and back ends where it began. |
| `RbTree.ValidMeans` | src/tree.h:46-55 | In every valid tree child and parent links agree everywhere, the root has no parent and the height is logarithmic. |
| `SplayTree.RotRStore` | src/tree.h:81-85 | The splay tree's right rotation on the links: a tree with the same members, each once. |
| `SplayTree.LinkLeftStore` | src/tree.h:93-97 | Linking left moves the root with its right subtree to the end of the greater tree's spine, also when that is still the local node. |
| `SplayTree.LinkRightStore` | src/tree.h:99-103 | The mirror image. |
| `SplayTree.Assembled` | src/tree.h:105-110 | The four assignments that reassemble the parts make one tree, with either or both of the spines empty. |
| `SplayTree.AssembledParts` | src/tree.h:105-110 | That tree has the members of the three parts, each once, in the order lesser, middle, greater. |
| `SplayTree.SplayTree.StepLeft` | src/tree.h:211-221 | One turn towards a smaller key: the in-order sequence stays, everything set aside lies on its side of the key, and less is left to search. |
| `SplayTree.SplayTree.StepRight` | src/tree.h:222-232 | The mirror image. |
| `SplayTree.StopNearest` | src/tree.h:211-233 | Where the loop stops no member lies between its root and the key. |
| `SplayTree.SplayTree.Splay` | src/tree.h:202-235 | The in-order sequence is unchanged, and the member with the key, or else a neighbour of the place where it would be, is the root. |
| `SplayTree.SplayTree.Insert` | src/tree.h:157-179 | Refines insertion into a set, for any node: a member with the key comes back and the members stay, the node itself if it is one already; or none had the key and exactly the new node joins, as the root. |
| `SplayTree.SplayTree.Remove` | src/tree.h:181-200 | Refines deletion from a set: exactly the members with the key go; the argument comes back if there was one, null if not. |
| `SplayTree.SplayTree.Find` | src/tree.h:121-130 | The member with the key, then at the root, or null when no member has it; the order is unchanged. |
| `SplayTree.SplayTree.MinMax` | src/tree.h:240-271 | The first or the last member comes to the root, the order unchanged, the loop ends. |
| `SplayTree.SplayTree.Next` | src/tree.h:132-144 | The member after the given one in key order, null after the last. |
| `ObjectDb.Db.Search` | src/cud.c:44-45 | The record with the key or null; of a map, not of a tree. |
| `ObjectDb.Db.First` | src/cud.c:46-47 | The record with the least key, null in an empty database. |
| `ObjectDb.Db.Add` | src/cud.c:61-92 | Exactly the new record joins. |
| `ObjectDb.Db.Drop` | src/cud.c:94-100 | Exactly the record leaves. |
| `Databases.InvalidateOwned` | src/port.c:783-793 | The traversal takes the mark of every valid record of one client and of no other, and takes no record out of the tree. |
| `Databases.Enqueue` | src/cud.c:118-122 | After it each port is once on its own client's queue, and all other queues are as they were. |
| `Databases.Dequeue` | src/cud.c:124-149 | After it each remaining port is once on its own client's queue. |
| `Databases.Databases.NewClient` | src/cud.c:61-92 | A valid record with an empty queue joins unless the key is taken; every invariant of the four databases holds after it. |
| `Databases.Databases.NewPort` | src/pud.c:60-74 | The new port is in the port tree and exactly once, last, on its client's queue; all invariants hold. |
| `Databases.Databases.NewOwned` | src/tud.c:61-74 | A thread or ring buffer record of a valid client joins its tree; all invariants hold. |
| `Databases.Databases.Check` | src/cud.c:109-116 | A valid record under the key, or none when there is no valid one, present but closed included. |
| `Databases.Databases.PortClose` | src/port.c:775-781 | Only this port's mark goes; the record stays in the tree and on the queue. |
| `Databases.Databases.ClientClose` | src/client.c:253-285 | Every port, thread and ring buffer of this client and the client itself become invalid, those of other clients keep their marks, no record leaves a tree. |
| `Databases.Databases.CloseValid` | src/client.c:293-299 | The traversal over all clients leaves no valid record of any kind. |
| `Databases.Databases.SweepPorts` | src/pud.c:85-90 | Every port is given back once by increasing key, tree and queues stay in step, and the loop ends. |
| `Databases.Databases.SweepOwned` | src/tud.c:84-89 | The same for threads and for ring buffers. |
| `Databases.Databases.SweepClients` | src/cud.c:102-107 | The same for the clients, when nothing belongs to any of them. |
| `Databases.Databases.CloseAll` | src/client.c:287-313 | All four trees end empty, and the records are given back in the order threads, ring buffers, ports, clients, nothing valid before the first of them. |
| `Databases.Databases.FreedOnce` | src/client.c:300-304 | What is given back is every record, each once, and no client before a record of another kind. |
| `DatabaseRuns.Do` | src/client.c:305-312 | Each registration and each closure does to the four databases just what it does to a table of keys, owners and validity; nothing is freed, no record leaves its tree and every invariant holds after it. |
| `DatabaseRuns.Live` | src/client.c:305-312 | So does any sequence of them, from empty databases. |
| `DatabaseRuns.Lifetime` | src/client.c:287-313 | Over any sequence of registrations and closures followed by the exit: what is freed, in order, are the threads by increasing key, then the ring buffers, the ports and the clients, exactly those that were ever registered, each once; nothing is left. |
| `DatabaseModel.NothingReturns` | src/client.c:305-312 | Over any sequence no object leaves the databases, changes its owner or becomes valid again, and a valid object always belongs to a valid client. |
| `DatabaseModel.ClosedForGood` | src/client.c:253-285 | Once a client is closed, it and every port, thread and ring buffer it owns are invalid in every later state, whatever is done afterwards. |
| `DatabaseModel.PortClosedForGood` | src/port.c:775-781 | So is a port once it has been closed. |
| `Bytes.TagSurvives` | src/ringbuffer.c:41-46 | A Lua tag survives the 32-bit header field if and only if it is a signed 32-bit number. |
| `Bytes.WordUnword` | src/ringbuffer.c:41-46 | A 32-bit field is four bytes, the low one first, which give it back. |
| `Bytes.HdrBytes` | src/ringbuffer.c:41-46 | The tag comes first in the header, then the length. |
| `Bytes.HdrRoundTrip` | src/ringbuffer.c:41-46 | The eight header bytes give back tag and length. |
| `Bytes.FramesSize` | src/ringbuffer.c:100-107 | Messages take up their data and eight bytes each. |
| `Bytes.FirstFrame` | src/ringbuffer.c:224-278 | The first message can be told from the bytes of all messages: its header, then its data. |
| `JackRing.Published` | src/ringbuffer.c:145-162 | Bytes copied where the write vector says, then published, are appended to what the ring holds, across the wrap. |
| `Ringbuffer.DataInSegments` | src/ringbuffer.c:258-275 | In all three wrap cases, data in the first segment, data split, header split, the bytes copied are those after the header. |
| `Ringbuffer.SentExactly` | src/ringbuffer.c:97-101 | All the bytes given are sent if their number fits 32 bits, the first so many as the cut length says if not, and none for no data. |
| `Ringbuffer.Ringbuffer.CWrite` | src/ringbuffer.c:130-165 | The message, with the tag and all the bytes given, is queued if and only if eight bytes and the data fit with one byte to spare; a refused write changes not one byte. The length is cut to 32 bits, as in the code. |
| `Ringbuffer.Ringbuffer.CRead` | src/ringbuffer.c:224-278 | The oldest message with its exact bytes, or none, or too small a buffer; only a read that advances takes it, and nothing beyond the message is written to the buffer. |
| `Ringbuffer.Ringbuffer.CReadAdvance` | src/ringbuffer.c:305-322 | Drops the oldest message, if there is one. |
| `Ringbuffer.Ringbuffer.LuaWrite` | src/ringbuffer.c:75-128 | The same with any Lua integer for a tag, taken modulo 2^32; a refused write changes nothing. |
| `Ringbuffer.Ringbuffer.LuaRead` | src/ringbuffer.c:168-222 | As CRead, with the tag read back as a signed number: from 2^31 on, 2^32 less. |
| `RingRuns.History` | src/ringbuffer.c:75-322 | Any sequence of writes, reads, peeks and advances on a real ring of any size shows exactly what the same operations show on a plain queue of messages; what left the ring are the oldest messages accepted, in their order, and what it holds are the others. |
| `RingRuns.Conservation` | src/ringbuffer.c:75-322 | From what such a sequence shows, which is what the real ring shows: no message is lost, repeated, reordered or made up. |
| `RingRuns.Meanings` | src/ringbuffer.c:75-322 | What a history tells: successful writes put in the bytes given, reads take out the message they return, advances one unseen, peeks none. |
| `RingRuns.PeekThenAdvance` | src/ringbuffer.c:224-322 | On the real ring a peek changes nothing, and a peek that sees a message followed by an advance is a read. |
| `RingInterleaving.WriterPreserves` | src/ringbuffer.c:130-165 | Every step of the writer, each byte and both publications, keeps the invariant in the midst of any read. |
| `RingInterleaving.ReaderPreserves` | src/ringbuffer.c:224-322 | Every step of the reader, of a read, a peek or an advance, keeps it in the midst of any write. |
| `RingInterleaving.RunInv` | src/ringbuffer.c:130-322 | So every state of every interleaving of one writer and one reader satisfies it. |
| `RingInterleaving.Safety` | src/ringbuffer.c:130-322 | On every interleaving the messages read or dropped are a prefix of those completely written, tags, lengths and bytes intact, and no partial message is ever handed over. |
| `RingInterleaving.PeekThenAdvance` | src/ringbuffer.c:280-322 | Peek, then advance, with the writer at work in between: the message that leaves the ring is the one that the peek has shown. |
| `RingInterleaving.LooksFind` | src/ringbuffer.c:233-238 | On every interleaving a reader finds a message if and only if one is complete and undelivered: the look for the header then goes on, and the look for the data, of a read or of an advance, succeeds exactly then. |
| `RingInterleaving.ReadsThrough` | src/ringbuffer.c:224-278 | From every reachable state in which a message is undelivered the reader can take step after step until it has delivered just that one, whatever the writer is in the midst of. |
| `RingInterleaving.DropsNext` | src/ringbuffer.c:305-322 | An advance that has found a message can drop it, and drops just that one. |
| `RingInterleaving.NeverEmptyHanded` | src/ringbuffer.c:224-322 | With a message undelivered a reader is idle again only by delivering it, or by leaving it where it is after a peek or for a small buffer. |
| `RingInterleaving.LookAccepts` | src/ringbuffer.c:140-142 | On every interleaving the writer accepts its message if and only if header and data fit beside the undelivered messages with one cell to spare. |
| `RingInterleaving.WritesThrough` | src/ringbuffer.c:130-165 | A writer whose message fits can take step after step until it has sent just that message, whatever the reader is in the midst of. |
| `RingInterleaving.SentIsAccepted` | src/ringbuffer.c:130-165 | Nothing is sent but the message accepted, unchanged, and once. |
| `RingInterleaving.PeekShows` | src/ringbuffer.c:224-278 | A peek shows the next message to be delivered and takes nothing; a buffer too small is left before a byte is copied. |
| `EventProtocol.InvRun` | src/evt.c:58-86 | The invariant of queue, counter, pipe, lock and flush holds in every state that any interleaving reaches. |
| `EventProtocol.Quiescent` | src/evt.c:58-77 | With nobody inside an operation the counter is the queue's length as an unsigned int, the pipe holds no more bytes than events are queued, and as many while the backlog has fitted; the main thread is then woken exactly when there is an event. |
| `EventProtocol.Accounted` | src/evt.c:50-77 | Every event inserted is queued, freed, leaked or in the main thread's hands, in exactly one of these and once. |
| `EventProtocol.FreedInOrder` | src/callback.c:184-208 | Events are freed once, in insertion order, none lost, and nothing is leaked if and only if no session callback gave a reply that cannot be converted. |
| `EventProtocol.HandlingEnds` | src/callback.c:184-208 | After a handler that closed the client or returned the flush goes on; after an error, an unknown type or a bad reply the main thread sleeps; all but the bad reply free the event. |
| `EventProtocol.FlushExact` | src/callback.c:179-208 | A flush that ends without an error has removed exactly the events counted at its start, oldest first, whatever was inserted meanwhile. |
| `EventProtocol.FlushEnds` | src/callback.c:184-208 | With n events to go the main thread takes at most 7n+1 steps, however much is inserted in between. |
| `EventProtocol.NoDeadlock` | src/evt.c:58-86 | Within a flush the main thread can go on, or the holder of the lock can. |
| `EventProtocol.PipeExact` | src/syncpipe.c:51-84 | Pipe and queue hold equally many in every quiescent state of a run if and only if no insertion left more events queued than the pipe can hold. |
| `EventProtocol.LostWakeUp` | src/main.c:241-257 | For a pipe of any size below the range of the 32-bit counter, a run whose backlog is just one event more, after which the main thread sleeps beside an empty pipe and a queue that is not empty. |
| `EventProtocol.LostExactly` | src/main.c:241-257 | Some run whose backlog is at most B ends with the main thread asleep beside a queue that is not empty and cannot wake it, if and only if B is more than the pipe can hold. |
| `EventProtocol.LeakedRun` | src/callback.c:140-160 | A run with a reply that cannot be converted, after which the event is neither queued nor freed. |
| `EventQueue.EvtQueue.Insert` | src/evt.c:58-65 | The event is last in the queue, the counter follows, the pipe gains a byte unless full. |
| `EventQueue.EvtQueue.Remove` | src/evt.c:67-86 | The first event, a byte and a count go together; on an empty queue nothing changes. |
| `EventQueue.EvtQueue.FreeAll` | src/evt.c:106-114 | Every queued event is freed in order; counter and pipe are back to zero. |
| `EventQueue.HandledPrefix` | src/callback.c:184-208 | The events a flush handles are those before and including the first whose handling raises an error, and all of them if none does. |
| `EventQueue.HandledUpTo` | src/callback.c:184-208 | Callbacks that close or return are followed by the next event; the first that raises, has an unknown type or a bad reply is the last. |
| `EventQueue.EvtQueue.Flush` | src/callback.c:169-213 | If every event counted at the start is closed or returns, all of them are handled and freed, in order and without an error; otherwise those up to the first that does not, with an error, and that one is freed unless its reply was bad. Later insertions stay queued behind the rest. |
| `ThreadHandshake.StatusClimbs` | src/thread.c:78-122 | Over every run the status only climbs, passing Ready and Running, to one of Done and Failed, where it stays. |
| `ThreadHandshake.EndsAs` | src/thread.c:95-116 | On every run the thread is Done exactly if its script has ended without an error and Failed exactly if it has ended with one. |
| `ThreadHandshake.Born` | src/thread.c:78-96 | A thread that is created and published starts its script, with the lock. |
| `ThreadHandshake.Woken` | src/thread.c:246-297 | A thread that waits and is signalled goes on with the lock, and the signaller is done. |
| `ThreadHandshake.TestFinds` | src/thread.c:246-255 | A signaller passes its test exactly while the script runs, waiting included. |
| `ThreadHandshake.SignallerAlone` | src/thread.c:246-265 | On every interleaving a signaller holds the lock only with the client thread in Wait or its script over, and holds it alone. |
| `ThreadHandshake.TryLockFinds` | src/thread.c:256-263 | A signaller that passed the Running test never gets the lock while script code runs. |
| `ThreadHandshake.NoLostSignal` | src/thread.c:246-297 | A signaller that finds the lock taken while the client thread is blocked in Wait found another signaller about to wake it. |
| `ThreadHandshake.NothingBeforeStart` | src/thread.c:178-192 | The script does not start before the creator has published the thread, and nobody signals before it has started. |
| `ThreadHandshake.NeverStuck` | src/thread.c:78-122 | A client thread that waits for the lock waits for a holder that can go on; in its first loop it waits only for its creator. |
| `DelayLine.Delayed` | examples/c_api/example4/myecho.c:152-160 | Whatever the line held, its k-th output is the k-th sample it owed for k below the delay and the input a delay ago from there on. |
| `DelayLine.MixIsEcho` | examples/c_api/example4/myecho.c:184 | Each output sample of the echo is the input plus the gain times what the line held for it or the input a delay ago. |
| `DelayLine.Remains` | examples/c_api/example4/myecho.c:152-160 | Afterwards the line holds what it held further on or the last inputs, and silence beyond. |
| `DelayLine.Cut` | examples/c_api/example4/myecho.c:163-190 | Processing a stream in two parts gives the samples, and leaves the line, of processing it at once. |
| `DelayLine.BlocksIrrelevant` | examples/c_api/example4/myecho.c:163-190 | However a stream is cut into blocks, the delayed samples are those of the whole. |
| `DelayLine.ClearKept` | examples/c_api/example4/myecho.c:155-156 | A line that is silent beyond its delay stays so, and any line becomes so once it has taken what it can hold beyond its delay. |
| `DelayLine.Lengthened` | examples/c_api/example4/myecho.c:82-95 | From a steady delay to a longer one: the samples still owed, then exactly as much silence as the delay has grown, then the new input. |
| `DelayLine.LengthIrrelevant` | examples/echo.lua:59-69 | From silence the long two-pointer line and the Lua line, as long as its delay, give the same samples. |
| `DelayLine.TickLine` | examples/c_api/example4/myecho.c:152-160 | The two-pointer step on the ring is one sample through a line that delays by the pointers' distance, or by the whole ring where they coincide. |
| `DelayLine.CLine.Tick` | examples/c_api/example5/myecho.c:73-81 | One call of DelayLine refines the tape, in either module. |
| `DelayLine.CLine.On` | examples/c_api/example4/myecho.c:82-95 | The line keeps what it holds; gain and delay are cut to one and to ten seconds, the samples are the whole ones of that delay, and the line delays by it if and only if that is at least one sample, and by its whole length otherwise. |
| `DelayLine.CLine.Process` | examples/c_api/example4/myecho.c:163-190 | Sample k of a block comes out as input k plus the gain times the line's sample k or, beyond the delay, the input a delay ago; with no gain the block is copied and the line left alone. |
| `DelayLine.LuaLine.Tick` | examples/echo.lua:63-69 | The one-pointer line refines the same tape with the delay as long as the line. |
| `DelayLine.LuaLine.Process` | examples/echo.lua:76-86 | The same for a block. |
| `DelayLine.EchoBlocks` | examples/c_api/example4/myecho.c:163-190 | A stream through the real line in blocks of any sizes comes out, sample for sample, as input plus gain times the input a delay ago, and leaves the line as the whole does. |
| `DelayLine.EchoLuaBlocks` | examples/echo.lua:76-86 | The same through the script's line. |
| `DelayLine.LateEcho` | examples/c_api/example4/myecho.c:82-95 | A line asked for a delay of one millisecond, less than a sample: the sample given comes back after ten seconds, and nothing does before. |
| `Buffer.Port.GetBuffer` | src/buffer.c:63-76 | A buffer is retrieved once a period, the cursor at its start. |
| `Buffer.Port.Write` | src/buffer.c:117-133 | The arguments are stored in order from the cursor on, up to the first that is no number, the end of the arguments or the end of the buffer; nothing else in the buffer changes. |
| `Buffer.Port.Clear` | src/buffer.c:136-149 | As many zeros as asked for and fitting, the count taken modulo 2^32; nothing else changes. |
| `Buffer.Port.Read` | src/buffer.c:152-168 | As many samples as asked for and left, in order; nothing at the end. |
| `Buffer.Port.Seek` | src/buffer.c:171-186 | The cursor moves there, or the call is refused exactly for a position outside the buffer. |
| `Buffer.DropAll` | src/buffer.c:421-435 | Every port on the client's queue loses its buffer. |
| `Metro.Metronome.ProcessAudio` | examples/metro.lua:148-160 | Sample k of a period of any size is the wave's sample k places on from where the last period stopped, modulo its length; the offset stays within the table; the sample too many of the last write is dropped. |
| `Metro.PeriodsIrrelevant` | examples/metro.lua:148-160 | Whatever the sizes of the periods, their concatenation is the endless repetition of the wave. |
| `Metro.Play` | examples/metro.lua:148-160 | The script run over any periods, the buffer retrieved, filled and dropped in each, puts out sample k of the wave, modulo its length, at place k. |
| `Metro.EndsExactly` | examples/metro.lua:151-155 | The loop ends if and only if the wave has at least one sample. |
| `Statistics.Welford` | src/utils.c:256-266 | The step that moves the mean gives the mean of all samples and the sum of their squared deviations from it. |
| `Statistics.Stat.Update` | src/utils.c:256-266 | One more sample is in the count, the mean, the second moment and the extremes. |
| `Statistics.Stat.Variance` | src/utils.c:268-269 | Never negative; times n-1 it is the sum of the squared deviations from the mean. |
| `Statistics.Meaning` | src/utils.c:247-266 | n times the mean is the sum, m2 the sum of squared deviations; every sample lies between min and max, which are samples or the start values 1e10 and zero. |
| `Statistics.AnyOrder` | src/utils.c:256-266 | Sum and squares depend on the samples, not on their order. |
| `Statistics.OrderIrrelevant` | src/utils.c:256-269 | Two runs over the same samples in any order end with the same statistics. |
| `Timespec.LosesLessThanANanosecond` | src/utils.c:47-56 | Seconds to timespec and back loses less than a nanosecond, towards zero, for either sign. |
| `Timespec.ExactBack` | src/utils.c:47-56 | Timespec to seconds and back is exact when both parts have one sign. |
| `Getopt.ConvertShort2Long` | luajack/getopt.lua:36-46 | The options are exactly the word characters of the string, and each takes a value if and only if a colon follows its last place. |
| `Getopt.WordChars` | luajack/getopt.lua:36-46 | Word characters are the letters and the digits. |
| `Getopt.Canonical` | luajack/getopt.lua:63-77 | The end of the chain of aliases: an option of the table that is not an alias, or a name that is not there. |
| `Getopt.CanonicalExactly` | luajack/getopt.lua:63-77 | That end is reached by following as many aliases as the table has entries, and known if and only if it is in the table. |
| `Getopt.EndsExactly` | luajack/getopt.lua:63-77 | The search ends for every option if and only if the aliases can be ranked, and if and only if no chain of aliases is still going after as many steps as the table has entries, which a caller can check. |
| `Getopt.Parser.Canonize` | luajack/getopt.lua:63-77 | The loop finds that end and records an unknown name in the module's variable. |
| `Getopt.Parser.TakeLong` | luajack/getopt.lua:95-125 | An argument with two dashes: what it gives, its value attached or next, or its error. |
| `Getopt.Parser.TakeShort` | luajack/getopt.lua:127-152 | A group of short options: what it gives, or its error. |
| `Getopt.Parser.GetOrderedOpts` | luajack/getopt.lua:79-161 | The two tables and the index are those of parsing in a first call; left over from a failed call, the module's variable makes a call fail if and only if its first argument is an option. |
| `Getopt.Parser.GetOpts` | luajack/getopt.lua:164-179 | Each option with the value given last and the index of the first operand, or the error. |
| `Getopt.LastGivenAt` | luajack/getopt.lua:171-177 | A name is in the result exactly if it was given, with the value of its last occurrence. |
| `GetoptRoundTrip.RoundTrip` | luajack/getopt.lua:79-161 | Options written out as clustered flags, attached or separate values, --name value or --name=value, and followed by operands, parse back to their canonical names, values and the place of the first operand. |
| `GetoptRoundTrip.Written` | luajack/getopt.lua:79-161 | Every list of arguments that parses was written so. |
| `GetoptRoundTrip.ParsesExactly` | luajack/getopt.lua:79-161 | A list of arguments parses if and only if it can be written from legal options followed by operands, and then to what they mean. |
| `GetoptRoundTrip.LongComplaints` | luajack/getopt.lua:95-125 | A long argument in error: the message for an unknown name, for a value of a flag, for a missing value. |
| `GetoptRoundTrip.ShortComplaints` | luajack/getopt.lua:127-152 | The same of short options. |
| `GetoptRoundTrip.Example` | luajack/getopt.lua:164-179 | One call on the real parser with flags in a group, a value next to it, an alias, an attached value and an operand, and what it returns. |
| `Midi.StatusExactly` | luajack/midi.lua:388-401 | A status byte put together is taken apart again if and only if the channel is one of the sixteen; note on with channel 17 becomes aftertouch. |
| `Midi.StatusBytes` | luajack/midi.lua:287-309 | The status byte of every message. |
| `Midi.StatusRead` | luajack/midi.lua:388-401 | The message and the channel that each of the 128 status bytes stands for. |
| `Midi.FourteenBits` | luajack/midi.lua:50-57 | A number and its two data bytes determine each other; two bytes come back exactly when the low one is below 128. |
| `Midi.Controllers.Define` | luajack/midi.lua:110-115 | A name or number defined before is refused; otherwise both tables gain the pair. |
| `Midi.Controllers.DefineAll` | luajack/midi.lua:315-381 | The definitions succeed if and only if no name and no number comes twice, and the two tables are then inverse. |
| `Midi.DecodeEncode` | luajack/midi.lua:403-417 | Every message an encoder accepts is decoded to the same message. |
| `Midi.VoiceBytes` | luajack/midi.lua:461-550 | The bytes of every channel message, and exactly which arguments are refused. |
| `Midi.CommonBytes` | luajack/midi.lua:557-578 | The same of the common messages. |
| `Midi.ParamsRead` | luajack/midi.lua:160-250 | What each decoder returns, field by field. |
| `Midi.DecodeExactly` | luajack/midi.lua:403-417 | Which bytes are an error, refused, undefined or too short, and that all others are decoded. |
| `Midi.EncodeDecode` | luajack/midi.lua:449-610 | A decoded message is encoded to the same bytes if and only if none is too many and every data byte is below 128. |
| `Midi.ControlByName` | luajack/midi.lua:496-521 | A control change by name has the number of that name and decodes with the name. |
| `Midi.ControlValues` | luajack/midi.lua:496-521 | No value sends 0, "on" 127, "off" 0, a data byte itself; any other word or number is refused. |
| `Midi.ControlSelected` | luajack/midi.lua:496-521 | By a name the same is sent as by its number; an unknown name, number or channel is refused. |
| `Midi.TimedRoundTrip` | luajack/midi.lua:81-89 | Time and message come back from a timed message. |

## Left out

- libjack, the Lua C API, pthreads, signals and file descriptors are represented by what they promise: a ring of some size with one byte kept free, two-segment vectors and positions that are published by one store; mutual exclusion by a mutex; a pipe as a bounded counter.
- Each step of a state machine is one atomic access in a single order of all threads; weaker memory orders, on which a lock-free ring also depends, are not part of this model.
- Header bytes are those of a little-endian machine with 32-bit fields.
- The C records of clients, ports, threads and ring buffers are one class here, with the fields that the four databases use; other fields are left out. The client of a record is given when the record is made, a little earlier than in C.
- Buffer.Port.GetBuffer: for MIDI ports the call goes on to clear the buffer or count its events, which is not part of this model.
- Memory is never short, and the key of a record, its address in C, is a parameter; that `rbuf_new` narrows its key to an int is therefore not visible.
- jack_ringbuffer_reset, and any use of a ring by more than one writer or more than one reader.
- A ring buffer's own wake-up pipe, which is written or read even when the message operation failed.
- The counter of active clients, which is decremented for inactive clients too.
- An event met while the program is exiting is freed by its handler and again by the flush; neither that nor a callback that calls sleep again is part of the event model.
- EventQueue.EvtQueue.Flush: the list of events is a sequence here; that the SIMPLEQ macros implement one is proved for `Entries.Fifo`. What other threads insert during the flush comes in batches between removals; `EventProtocol` has every interleaving.
- Freewheel, Latency and Session handlers that read or fetch the wrong field: handlers are arbitrary steps with one of five outcomes.
- ThreadHandshake.StatusClimbs: cancellation of a thread, and the failure to create a mutex or a condition, are left out; the creation of the thread may fail.
- Databases.Databases.ClientClose: deactivation, unregistering of callbacks and the calls into libjack have no counterpart.
- AudioCopy, which copies from the start of the buffers and not from their cursors, and the MIDI ports.
- Floating-point rounding: samples, gains, delays and statistics are reals, and conversions to whole samples are exact.
- DelayLine.LuaLine.Tick: the Lua line is given at least one sample of delay; with none, the script fails on its first sample by arithmetic on nil.
- Metro.Metronome.ProcessAudio: the sine in the wave table, the transport query and the limit on the number of values a Lua call can return are left out.
- SplayTree.SplayTree.MinMax: an argument of zero, for which the loop would not end, is not passed by the macros that use it.
- Getopt.Canonical: takes a ranking of the alias table, which exists exactly for tables on which the code ends (`Getopt.EndsExactly`).
- Getopt.ConvertShort2Long: the pattern class of word characters is that of the C locale.
- Midi.DecodeEncode: message names are constructors, numbers are integers; system exclusive messages have no encoder or decoder in the script, and the printable forms, note frequencies and the default velocity of 64 are left out.
- Midi.Controllers.DefineAll: holds of any list of definitions; that the script's own list has no duplicate is what loading it checks.
- Thin wrappers of libjack (transport, time, latency, session, server control, most of the port functions and the C API), the graphical scripts, usage texts and makefiles.
