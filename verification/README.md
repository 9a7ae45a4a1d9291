# ConcurrentCache in Dafny

A model of the parts of the ConcurrentCache server whose correctness does not
follow from reading one function: the three-level memory allocator, the byte
streams that carry commands and cluster messages, the sharded store with its
expiry dictionary, value payloads and snapshot files, the replication and
migration protocols, the locks and the thread pool, and slot ownership.
`dafny verify dfyconfig.toml` checks everything.

## What is modelled

- **Allocator.** `PageCache.dfy` (spans of pages: best fit, splitting,
  coalescing), `SpanList.dfy` (the sentinel ring), `FreeList.dfy` (intrusive
  lists), `SizeClass.dfy`, `CentralState.dfy` and `CentralCache.dfy` (carving
  spans into objects), `ThreadCache.dfy`, and `Pool.dfy` (any number of threads,
  interleaved). `Span*` is a reference into an arena of spans; `mmap` returns
  any page range that was never mapped before, or fails; failures are counted.
- **Byte streams.** `Buffer.dfy`, `Resp.dfy` (scanner and parser as functions of
  the unread bytes), `Nesting.dfy` (where the two part on nested arrays),
  `RespParser.dfy` (the same on the buffer, in place),
  `RespCodec.dfy`, `RespValues.dfy` (values of every kind, nested),
  `Connection.dfy`, `BadHeads.dfy` (protocol errors), `ClientConnection.dfy`,
  and for the bus `BusArgs.dfy`, `BusLink.dfy`, `BusCommand.dfy`. `Streaming.dfy` holds the one theorem about
  chunking that both streams use.
- **Values and the store.** `Object.dfy`, `Payloads.dfy` and `CacheObject.dfy` (payloads),
  `TimedMap.dfy` (what the store is meant to be: one map with deadlines),
  `Storage.dfy` and `StorageRun.dfy` (shards and expiry dictionary refine it),
  `Restore.dfy` (a value's way from node to node), `Rdb.dfy`, `RdbFormat.dfy`,
  `RdbFile.dfy` and `Snapshot.dfy` (snapshot files).
- **Protocols.** `Replication.dfy`, `ReplicationOrder.dfy`, `ReplicationBuffer.dfy`,
  `Migrate.dfy`.
- **Synchronisation.** `RwLock.dfy`, `Barrier.dfy`, `ThreadPool.dfy`: critical
  sections are steps, sleepers and notifications are state.
- **Slots.** `Slots.dfy`.

`Bytes.dfy`, `Seqs.dfy` and `Wrappers.dfy` hold what several of these share.

Time, random numbers, hash functions, CRC32, the container iteration order and
the printing and parsing of doubles are parameters, and so is the number of list
elements for which memory can be reserved. A command reads the clock
once. Locks make their critical sections atomic.

## Where the code does not keep a promise

Each of these is stated as the code behaves: the exact condition under which
the promise is kept, for all inputs or runs, and a case in which it is not.

- The scanner accepts an integer line that is not a number, which the parser
  refuses (`Resp.FlatCommandsAgree`; `Resp.NoNumberAccepted`).
- On nested arrays the scanner counts stars and line ends instead of recursing.
  Of a command it accepts, the parser reads the same bytes if and only if its
  items can be read, integer lines being numbers; it has as many values other
  than arrays as its outer array announces and ends in one of them; no array
  inside it starts with a bulk string that has a text; and no array stands inside
  32 others (`Nesting.ScannerAgreesWithParser`, `Nesting.DepthDecides`). Of a
  command the parser reads, the scanner accepts the same bytes if and only if the
  first of these hold and the command is within the scanner's limits on length
  and counts (`Nesting.ScannerMissesNothing`; for one nested array
  `Nesting.NestedArrayScannedIff`). All this provided that what stands right
  behind an array header does not imitate the protocol. Without that proviso the
  two agree on every element if and only if in every nested array the line ends
  outnumber the stars for the first time at its end
  (`Nesting.ElementByElementIff`). Failing cases are
  `Nesting.NestedScannedTooEarly` and `Nesting.DeepCommandRefused`.
- A null array at the head of the buffer, `*-1`, is never a complete command
  and never a protocol error, so nothing behind it is ever read. It is the only
  such line: any other first line raises the error and closes the connection if
  and only if no continuation makes it a command (`BadHeads.HopelessIff`;
  `BadHeads.NullArrayNeverComplete`).
- `send_msg` lets a frame with more than 2^20 arguments through; the receiver
  drops the link on it (`BusLinks.FrameReadBack`; `BusLinks.TooManyArguments`).
- A container comes back from its payload if and only if it is not empty; an
  empty one comes back as the empty string (`Objects.PayloadRoundTrip` says both).
- DEL counts a key that is dead but not yet removed
  (`Storages.GlobalStorage.Del`; `StorageRuns.CountsDeadKey`).
- Commands can reach a replica in another order than they were executed, with or
  without a full sync, and during one a command can be sent twice; none is lost.
  A command that was through before another one came to the locked section is
  sent before it, every copy of it, if and only if the other is not pushed while
  the first is in the backlog (`ReplicationOrder.FinishedFirstIff`;
  `ReplicationOrder.OlderCommandSentLast`). For any two commands the condition is
  `ReplicationOrder.OrderKeptIff`. Without a sync the order is that of the pushes
  (`ReplicationOrder.WireIsPushOrder`), which overlapping writers make in any order
  (`ReplicationOrder.OvertakenWithoutSync`).
- Writes to the source between the read and the delete of a migration are lost
  if and only if they left another value than the one that was read
  (`Migrate.WritesKeptIff`; `Migrate.WriteDuringMigrationLost`).
- A record without a deadline whose key is 0xFE000000 to 0xFEFFFFFF bytes long
  is taken for one with a deadline and never read back as itself
  (`Rdb.MarkerTakenIff`, `Rdb.KvReadBackIff`, `Rdb.FileRoundTripIff`;
  `Rdb.LongKeyMisread`).
- The slot map and the nodes' slot lists disagree after exactly two kinds of
  operations: this node's object is removed from the node table while it has
  slots, or a failover takes over a master that has slots while this node's name
  is not in the table (`Slots.ClusterState.Step`; `Slots.RemovesItself`,
  `Slots.FailsOverUnknown`). Both need `delNode`, so these are promises of the
  functions: no command of this version calls it.

## Model

| member | source | states |
|---|---|---|
| Pages.PageCache.AllocateSpan | src/memorypool/page_cache.cpp:17-101 | a span of exactly the pages asked for leaves the free set: the whole of a best fit, or its front with the rest kept free, and new pages are mapped only when no free span is large enough; none exactly when memory was asked for once and refused; the invariant survives every branch |
| Pages.PageCache.FreeSpan | src/memorypool/page_cache.cpp:103-119 | the span's pages become free, every other page keeps its owner, and the result has no two adjacent free spans |
| Pages.PageCache.CoalesceSpan | src/memorypool/page_cache.cpp:121-196 | merging both ways terminates, keeps every page, and leaves no free span touching the result |
| Pages.AbsorbKeepsValid | src/memorypool/page_cache.cpp:121-196 | swallowing one neighbour keeps the page map exact, the size lists exact and the spans disjoint |
| Pages.PutBackKeepsValid | src/memorypool/page_cache.cpp:103-119 | listing a fully merged span restores the whole invariant |
| Pages.TakeSplitKeepsValid | src/memorypool/page_cache.cpp:17-101 | splitting a free span keeps map, lists and non-adjacency |
| Pages.TakeNewKeepsValid | src/memorypool/page_cache.cpp:17-101 | freshly mapped pages collide with nothing mapped before |
| Pages.AllocationHandsOut | src/memorypool/page_cache.cpp:17-101 | every successful allocation hands out one new outstanding span over pages nobody else had, and changes no other outstanding span |
| Pages.MappedPagesPartitioned | src/memorypool/page_cache.cpp:17-196 | each mapped page belongs to exactly one span, free or outstanding, and the page map covers exactly the free ones |
| Pages.PagesConserved | src/memorypool/page_cache.cpp:17-196 | free pages plus outstanding pages equal all pages ever mapped |
| Pages.FreePagesDetermineSpans | src/memorypool/page_cache.cpp:121-196 | coalescing is canonical: two states with the same free pages have the same free spans, whatever the order of frees |
| Pages.Run | src/memorypool/page_cache.cpp:17-196 | after any run of allocations and frees, whatever mmap answers, the invariant holds, free plus handed-out pages are exactly the pages mapped, and as many allocations failed as memory was refused |
| SpanLists.SpanList.PushFront | src/memorypool/span.cpp:27-32 | the ring of pointers represents the old sequence with the node in front |
| SpanLists.SpanList.PushBack | src/memorypool/span.cpp:34-39 | the ring represents the old sequence with the node at the end |
| SpanLists.SpanList.Remove | src/memorypool/span.cpp:41-47 | the ring represents the old sequence without the node, wherever it was, in the same order |
| SpanLists.SpanList.Size | src/memorypool/span.cpp:49-55 | walking the ring terminates and counts its nodes |
| FreeLists.FreeList.Push | src/memorypool/free_list.cpp:10-15 | the chain through the objects' own memory gains the object in front |
| FreeLists.FreeList.Pop | src/memorypool/free_list.cpp:17-28 | the front object leaves the chain; an empty list gives none |
| FreeLists.FreeList.PopBatch | src/memorypool/free_list.cpp:30-37 | the first n objects, or all, come off in chain order and the rest stays chained |
| FreeLists.FreeList.PushBatch | src/memorypool/free_list.cpp:39-43 | the batch ends up in front in reverse order, the old chain intact behind it |
| SizeClass.Increasing | src/memorypool/size_class.h:22-52 | the 29 class sizes strictly increase |
| SizeClass.GetIndex | src/memorypool/size_class.cpp:10-26 | the least class that fits, a multiple of eight and less than twice the request unless it is eight; none exactly when the size exceeds 256 KB |
| CentralState.AtLeast256 | src/memorypool/central_cache.cpp:119-158 | the pages requested for any class hold at least 256 objects |
| CentralState.FewestPages | src/memorypool/central_cache.cpp:119-158 | a class asks for the fewest pages that hold 256 of its objects, and a span holds as many objects as fit |
| CentralState.ObjectWithin | src/memorypool/central_cache.cpp:119-158 | every carved object lies inside its span's pages |
| CentralState.ObjectsNeverOverlap | src/memorypool/central_cache.cpp:119-158 | two objects of any classes and spans share no byte |
| CentralState.OutCount | src/memorypool/central_cache.cpp:75-117 | a span's free count equals its list length, and capacity minus that the objects out |
| CentralState.LastOneOut | src/memorypool/central_cache.cpp:75-117 | the count reaches capacity exactly when the last object out returns |
| CentralCaches.CentralCache.Carve | src/memorypool/central_cache.cpp:119-158 | carving lists each slot of the span once and counts them |
| CentralCaches.CentralCache.FetchFromPageCache | src/memorypool/central_cache.cpp:119-158 | a span of the class's page count, nobody else's, carved to capacity; none exactly when memory was refused, and then nothing changed |
| CentralCaches.CentralCache.Allocate | src/memorypool/central_cache.cpp:33-73 | an object nobody held in any class becomes held in its class and nothing else changes: the front object of the first span with one; none exactly when the class is used up, no free span is large enough, and memory was asked for once and refused |
| CentralCaches.CentralCache.Deallocate | src/memorypool/central_cache.cpp:75-117 | the object leaves the held set of its class and heads its span's free list, or, exactly when it was the last one out, its span goes back to the page cache |
| ThreadCaches.ThreadCache.FetchFromCentral | src/memorypool/thread_cache.cpp:93-111 | 256 objects move onto the empty list, fewer exactly when memory was refused once; what everyone else holds is unchanged |
| ThreadCaches.ThreadCache.ReturnToCentral | src/memorypool/thread_cache.cpp:113-136 | the front half, or everything, goes back and the rest keeps its order |
| ThreadCaches.ThreadCache.Allocate | src/memorypool/thread_cache.cpp:38-62 | the front object of the least fitting class's list, without the central cache while the list has one; none only when memory was refused; above 256 KB it is malloc |
| ThreadCaches.ThreadCache.Deallocate | src/memorypool/thread_cache.cpp:64-84 | the object heads its class's list, which gives its front half back exactly beyond 32; no list exceeds 256 |
| ThreadCaches.ThreadCache.Destroy | src/memorypool/thread_cache.cpp:28-36 | the destructor leaves every list empty and only the others' objects held |
| Pool.RunsKeepInv | src/memorypool/thread_cache.cpp:38-136 | over every interleaving of any threads' steps each object out of its span is tracked to one place |
| Pool.EveryObjectInOnePlace | src/memorypool/central_cache.cpp:33-158 | in every state of every run an object out of its span is with the application or with one thread, there once, on its list or in its local batch, in one class, never two; no thread list exceeds 256 |
| Pool.NothingOverlaps | src/memorypool/central_cache.cpp:33-158 | in every run of all threads over the central and the page level, two objects that are out share no byte, and each lies on mapped pages |
| Pool.ReturnedObjectIsOut | src/memorypool/thread_cache.cpp:113-136 | whatever a thread gives back is out in its class, so the central cache always finds its span |
| Buffers.Buffer.Append | src/network/buffer.cpp:22-27 | the unread bytes gain the data at the end; storage stays within twice the largest amount ever unread |
| Buffers.Buffer.Retrieve | src/network/buffer.cpp:36-47 | the first bytes leave the queue, or all; the read index never passes half the storage |
| Buffers.Buffer.RetrieveAll | src/network/buffer.cpp:49-52 | the queue is empty and the indices are reset |
| Buffers.Buffer.EnsureWritable | src/network/buffer.cpp:59-64 | room for the bytes, and the bytes written so far stay |
| Buffers.Buffer.Compact | src/network/buffer.cpp:66-77 | the copy, reached only when source and destination do not overlap, keeps the unread bytes |
| Streaming.ChunkingIsInvisible | src/network/connection.cpp:174-224 | for any framed code and any chunks, exactly the messages that arrived whole are delivered in order and exactly the unfinished bytes are kept |
| Resp.FlatCommandsAgree | src/protocol/resp.cpp:169-382 | on every command without nested arrays that the scanner accepts, the parser succeeds, consuming the same bytes, if and only if the integer lines are numbers |
| Resp.RefusedBecause | src/protocol/resp.cpp:439-817 | for every value, at every depth: which first line the parser accepts or refuses, with the error it gives, and what it reads; beyond that only the elements of an array can fail |
| Resp.NoNumberAccepted | src/protocol/resp.cpp:169-382 | a concrete integer line that the scanner accepts and the parser refuses |
| Nesting.ScannerMissesNothing | src/protocol/resp.cpp:169-382 | of every command the parser reads, nested or not, the scanner accepts exactly those within its limits whose items fit the outer count, and then walks the same bytes |
| Nesting.ScannerAgreesWithParser | src/protocol/resp.cpp:169-382 | of every command the scanner accepts, nested or not, the parser consumes exactly the same bytes if and only if the items can be read, fit the outer count, and no array stands inside 32 others |
| Nesting.DepthDecides | src/protocol/resp.cpp:738-817 | a fitting array is read, or refused for its depth, exactly as a walk over its headers with the counts still open says |
| Nesting.NestedArrayScannedIff | src/protocol/resp.cpp:353-366 | the scanner ends where a nested array ends if and only if the first line that is no array header is the array's last line |
| Nesting.ElementByElementIff | src/protocol/resp.cpp:309-371 | whatever the texts are, scanner and parser agree on the end of every element if and only if in every nested array the line ends outnumber the stars for the first time at its end; then they agree on the end of them all |
| Nesting.NestedEndIs | src/protocol/resp.cpp:353-366 | the counting loop stops exactly where, counted from the array's first byte, line ends outnumber stars for the first time |
| Nesting.CountedAsParsed | src/protocol/resp.cpp:738-817 | the recursive parser and a loop with one counter of values still wanted read the same items to the same end |
| Nesting.NestedScannedTooEarly | src/protocol/resp.cpp:295-365 | a concrete nested array that the scanner calls complete and the parser fails on after dropping both headers |
| Nesting.DeepCommandRefused | src/protocol/resp.cpp:738-747 | every command of more than 32 arrays of one element, one in the other, is complete for the scanner and refused by the parser |
| RespCodec.EncodeArrayLoop | src/protocol/resp.cpp:907-924 | the appending loop builds the array encoding |
| RespCodec.CommandIs | src/protocol/resp.cpp:439-817 | an encoded command is scanned and parsed whole, whatever follows, without a protocol error |
| RespCodec.CommandCut | src/protocol/resp.cpp:169-382 | no proper prefix of an encoded command is taken for complete |
| RespValues.ValueReadBack | src/protocol/resp.cpp:439-924 | every value of any kind, arrays nested up to 32 deep, written by the encoders is parsed back as itself, whatever follows |
| RespValues.NullsAreEmpty | src/protocol/resp.cpp:651-817 | the null string and the null array are read as the empty string and the empty array |
| Connections.CommandsDelivered | src/network/connection.cpp:174-224 | encode any commands within the limits, concatenate, cut anywhere: exactly the whole ones are delivered in order, never an error, and only the unfinished suffix stays |
| RespParsers.FindCrlfLoop | src/protocol/resp.cpp:388-419 | the first line end, or none |
| RespParsers.HasCompleteCommand | src/protocol/resp.cpp:169-382 | the cursor loops, element by element and with the counting of nested arrays, compute the scanner function |
| RespParsers.ElementComplete | src/protocol/resp.cpp:315-371 | how far the scanner walks over one element of any kind |
| RespParsers.RespParser.HasProtocolError | src/protocol/resp.cpp:50-98 | the verdict of `ProtocolError` on the unread bytes, which `BadHeads.ErrorRaisedIff` spells out; once raised it stays |
| BadHeads.ErrorRaisedIff | src/protocol/resp.cpp:50-98 | an error exactly for a first byte that is none of the five types, or a `$` or `*` line that has arrived and is no number, below -1, or above 512 MB or 2^20 |
| BadHeads.ErrorIsFinal | src/protocol/resp.cpp:50-98 | an error stays one whatever arrives, and no continuation would have been a command |
| BadHeads.HopelessIff | src/protocol/resp.cpp:50-382 | of a first line that has arrived: no continuation is ever a command if and only if it is a protocol error or a null array |
| BadHeads.NullArrayNeverComplete | src/protocol/resp.cpp:283-305 | a buffer that starts with a null array is, whatever follows, neither a command nor an error |
| BadHeads.ClosesIff | src/network/connection.cpp:152-224 | a read closes the connection exactly when it is over the limit, an error was raised before, or the head is bad, and then delivers nothing |
| BadHeads.AnswersRefusals | src/network/connection.cpp:199-224 | a read that does not close either leaves no complete command or answers one error, that of a complete command the parser refuses; the next read closes exactly if it was nested too deep |
| BadHeads.ClosedForGood | src/network/connection.cpp:152-158 | over any reads, a closed connection delivers nothing more |
| BadHeads.NotACommand | src/network/connection.cpp:193-202 | `PING` and `*abc` on a line close a new connection |
| RespParsers.RespParser.ParseLine | src/protocol/resp.cpp:530-598 | reads one line off the buffer as the line parser does |
| RespParsers.RespParser.ParseInteger | src/protocol/resp.cpp:606-642 | reads an integer line off the buffer, or reports why not |
| RespParsers.RespParser.ParseBulkString | src/protocol/resp.cpp:651-717 | reads a bulk string off the buffer, null included, or reports why not |
| RespParsers.RespParser.ParseArray | src/protocol/resp.cpp:738-817 | reads an array element by element, dropping what it consumed even on failure, with the depth limit |
| RespParsers.RespParser.ParseOne | src/protocol/resp.cpp:439-522 | what is read and what is left in the buffer are those of the parser function |
| RespParsers.RespParser.Parse | src/protocol/resp.cpp:102-152 | takes every complete command off the buffer, in order, stopping at the first error; nesting too deep raises the protocol error |
| ClientConnections.ClientConnection.HandleRead | src/network/connection.cpp:152-224 | one read on buffer, scanner and parser together is one step of the abstract connection: limit, protocol error, commands, parse error |
| ClientConnections.Serve | src/network/connection.cpp:152-224 | end to end on the running objects: encoded commands in any chunks are delivered whole, in order, without an error, the unfinished suffix kept |
| Bytes.DecimalInjective | src/cluster/cluster_link.cpp:133-140 | two numbers never print the same |
| Bytes.StollIs | src/protocol/resp.cpp:12-27 | any text is blanks, a sign, digits and a rest: a number exactly with a digit and within 64 bits, ending where the rest starts; a length or count exactly if there is no rest |
| Bytes.DecimalDigits | src/cluster/cluster_link.cpp:133-140 | the digit count equals the printed length |
| BusArgs.FrameBytes | src/cluster/cluster_link.cpp:148-154 | the length computed without building the frame is the length of the frame |
| BusArgs.EncodeArgsLoop | src/cluster/cluster_link.cpp:156-164 | the appending loop builds the argument frame |
| BusArgs.ReadFieldLoop | src/cluster/cluster_link.cpp:170-195 | one to ten digits up to the newline, added up; anything else is refused |
| BusArgs.DecodeArgsLoop | src/cluster/cluster_link.cpp:166-227 | the cursor loop accepts and returns what the decoding function does, reading inside the frame only |
| BusArgs.RoundTripOrExtended | src/cluster/cluster_link.cpp:148-227 | an encoding decodes to its arguments, and with any byte after it is refused |
| BusArgs.PrefixRefused | src/cluster/cluster_link.cpp:166-227 | no proper prefix of an encoding decodes |
| BusArgs.DecodesIff | src/cluster/cluster_link.cpp:166-227 | a text decodes to a list of arguments if and only if it says how many, at most 2^20, then each behind its length, every number in one to ten digits, and nothing more |
| BusLinks.FrameReadBack | src/cluster/cluster_link.cpp:538-660 | every frame the sender accepts is read back whole, whatever follows, if and only if it has at most 2^20 arguments |
| BusLinks.TooManyArguments | src/cluster/cluster_link.cpp:244-307 | a frame of 2^20 + 1 empty arguments that the sender accepts and the receiver breaks on |
| BusLinks.FrameCut | src/cluster/cluster_link.cpp:538-602 | a frame with bytes missing is neither a message nor an error |
| BusLinks.Verdict | src/cluster/cluster_link.cpp:538-660 | for all bytes, with the numbers of the protocol: too short, foreign, a bad length, not all there, or a message exactly in version 1 or in version 2 with arguments that decode |
| BusLinks.LegacyPieces | src/cluster/cluster_link.cpp:604-660 | the pieces of a version 1 area hold no separator, and separators behind them give the area back |
| BusLinks.MagicAtIff | src/cluster/cluster_link.cpp:550-572 | skipping stops at the magic number with at least a whole header from there on |
| BusLinks.FramesDelivered | src/cluster/cluster_link.cpp:404-442 | frames cut into any chunks come out whole and in order, with fewer bytes kept than the frame limit |
| BusLinks.DeclaredLength | src/cluster/cluster_link.cpp:244-307 | a frame's declared length is the number of bytes written |
| BusLinks.ClusterLink.SendMsg | src/cluster/cluster_link.cpp:244-307 | nothing is written, or one whole frame; it is refused exactly when disconnected or over the frame limit |
| BusLinks.ClusterLink.ReadComplete | src/cluster/cluster_link.cpp:538-602 | ready exactly when a whole frame with a sane length is there; a bad length raises the flag; foreign bytes are skipped up to the next header that fits |
| BusLinks.ClusterLink.DecodeMsg | src/cluster/cluster_link.cpp:604-660 | the frame at the front is handed over and removed, or both stay |
| BusLinks.ClusterLink.HandleRead | src/cluster/cluster_link.cpp:404-456 | one read is one step of the abstract receiver; a bad frame drops the link after the good ones, foreign bytes are skipped, and more than the frame limit left over drops it too |
| BusLinks.ReadFrames | src/cluster/cluster_link.cpp:404-442 | a link fed frames in any chunks hands over exactly those that arrived whole, in order, and stays up |
| BusCommands.TaggedRoundTrip | src/cluster/cluster_connection.cpp:297-315 | id and body come back from a tagged text, whatever bytes the body has |
| BusCommands.TaggedIff | src/cluster/cluster_connection.cpp:297-315 | a text carries an id and a body if and only if it is the prefix, an id without a space, a space and the body |
| BusCommands.IdIs | src/cluster/cluster_connection.cpp:297-315 | an id is the whole text, with a digit and within 64 bits; a minus sign wraps around |
| BusCommands.TagsAreDistinct | src/cluster/cluster_connection.cpp:728-749 | a request is never taken for a response or the other way round |
| BusCommands.LineRoundTrip | src/cluster/replication_mgr.cpp:294-326 | an encoded command line is read back argument for argument |
| Objects.PayloadRoundTrip | src/datatype/object.cpp:429-597 | in whatever order a container iterates, its payload decodes to an equal object, an empty container to the empty string; a list reserves exactly its size |
| Payloads.DecodesIff | src/datatype/object.cpp:484-597 | a payload decodes to an object if and only if it is one of the five tag lines and exactly the records that build it: no prefix, no trailing byte, no other tag |
| Objects.Rebuilt | src/datatype/object.cpp:64-282 | the adders rebuild a container from any listing of it |
| CacheObjects.CacheObject.ListPush | src/datatype/object.cpp:64-86 | appends or prepends; a string becomes the first element unless empty; another type is refused unchanged |
| CacheObjects.CacheObject.HashSet | src/datatype/object.cpp:142-154 | sets the field, turning a string into a hash; another type is refused unchanged |
| CacheObjects.CacheObject.SetAdd | src/datatype/object.cpp:203-216 | adds the member and tells whether it is new |
| CacheObjects.CacheObject.ZSetAdd | src/datatype/object.cpp:243-282 | the member is in the ordered set with this one score afterwards, whatever score it had; tells whether anything changed |
| CacheObjects.CacheObject.FindOther | src/datatype/object.cpp:253-269 | the search through a set ordered by score finds the member's element exactly when its score differs |
| CacheObjects.CacheObject.Serialize | src/datatype/object.cpp:429-482 | the payload of this value for the order its container happened to iterate in |
| CacheObjects.CacheObject.Deserialize | src/datatype/object.cpp:484-597 | a new object becomes the decoded value exactly for the payloads the decoder accepts; a LIST count that cannot be reserved throws before any record is read |
| TimedMaps.LaterViews | src/cache/expire_dict.cpp:97-112 | what is visible later depends only on what is visible now |
| TimedMaps.VisibleIff | src/cache/expire_dict.cpp:97-112 | a key is visible with its value exactly without a deadline or before it |
| TimedMaps.StrictIff | src/cache/storage.cpp:511-554 | a counter is an optional minus and at least one digit, within 64 bits, and nothing else |
| TimedMaps.ShownParses | src/cache/storage.cpp:511-554 | a counter written as text reads back as the same number |
| TimedMaps.CountersAdd | src/cache/storage.cpp:511-554 | two increments are one increment by the sum |
| TimedMaps.DeadlineIsAhead | src/cache/storage.cpp:482-490 | a time to live given now ends in the future, however long |
| TimedMaps.NewKeysDoNotExpire | src/cache/storage.cpp:109-168 | over any run, a key that only container writes and counters write never has a deadline |
| TimedMaps.InPlaceKeepsDeadline | src/cache/storage.cpp:444-462 | over any part of a run in which a key is only written in place or with KEEPTTL, its absolute deadline stays the same |
| TimedMaps.OtherKeysUntouched | src/cache/storage.cpp:74-554 | over any part of a run that concerns other keys only, a key stays visible with value and deadline exactly as it was |
| Storages.PutView | src/cache/storage.cpp:74-107 | writing a key in its shard and its deadline in the dictionary writes one entry of the timed map and keeps both invariants |
| Storages.DropView | src/cache/storage.cpp:175-195 | removing from shard and dictionary removes one entry of the timed map |
| Storages.GlobalStorage.Get | src/cache/storage.cpp:33-66 | the live value, its access time brought up to date; a dead key is removed on the way and no client can tell |
| Storages.GlobalStorage.Exist | src/cache/storage.cpp:203-213 | whether the key is live |
| Storages.GlobalStorage.Set | src/cache/storage.cpp:74-107 | the key gets the value and no deadline; nothing leaves while ten times the keys plus ten are within nine times the capacity, at most 1024 keys otherwise, and only this key is new |
| Storages.GlobalStorage.SetWithExpire | src/cache/storage.cpp:470-503 | the key gets the value and the deadline now plus the time to live, at most the largest 64-bit time, or none for a time to live not above 0; evicts as little as `Set` |
| Storages.GlobalStorage.SetConditional | src/cache/storage.cpp:410-468 | on the live map: NX applies exactly if the key is absent, XX exactly if it is there, no condition always; applied, the key has the value with the old deadline (KEEPTTL) or the new one; refused, nothing changes; the previous value is the live one |
| Storages.GlobalStorage.Mutate | src/cache/storage.cpp:109-168 | refused, unchanged, exactly for a live value of another type that is no string to be promoted; otherwise the callback on the live value or an empty string decides: keep, erase, or write with the deadline kept |
| Storages.GlobalStorage.IncrBy | src/cache/storage.cpp:511-554 | an absent key counts as 0; the answer is value plus delta, stored with the deadline kept, exactly when the value is a number and the sum within 64 bits; otherwise nothing changes |
| Storages.GlobalStorage.Del | src/cache/storage.cpp:175-195 | the key is gone; the reply is the timed map's exactly when the key was not dead and still there |
| Storages.GlobalStorage.Expire | src/command/expire_cmd.h:49-84 | true exactly for a live key; it is removed for seconds not above 0, else its deadline is now plus 1000 times the seconds, each at most the largest 64-bit number |
| Storages.GlobalStorage.Persist | src/cache/expire_dict.cpp:71-85 | true exactly for a live key with a deadline; afterwards it has none and nothing else changes |
| Storages.GlobalStorage.Clear | src/cache/storage.cpp:238-252 | no key and no deadline is left |
| Storages.GlobalStorage.Size | src/cache/storage.cpp:220-229 | the sum over the shards counts every stored key once |
| Storages.GlobalStorage.FindVictim | src/cache/storage.cpp:279-303 | a dead key of the shard if it has one, else the one used longest ago; always one if any was used before the end of time |
| Storages.GlobalStorage.EvictOne | src/cache/storage.cpp:266-316 | of at most eight drawn shards the first with a victim loses it from both structures; none exactly when eight have none |
| Storages.GlobalStorage.EvictDownTo | src/cache/storage.cpp:340-355 | only victims leave, and it stops at 1024, when nothing was found, or at a check after every 64th that finds few enough keys |
| Storages.GlobalStorage.EvictIfNeeded | src/cache/storage.cpp:318-359 | nothing leaves while ten times the keys plus ten are within nine times the capacity; from nine tenths on keys leave until 1024 are gone, eight shards in a row had none, or a check after every 64th finds at most six tenths |
| Storages.GlobalStorage.MakeRoom | src/cache/storage.cpp:114-129 | how mutate, incrby and set_conditional begin: room is made, a dead key is cleared and counts as absent |
| StorageRuns.Execute | src/cache/storage.cpp:33-554 | each command refines the timed map's, adds no key but its own and evicts only as allowed; DEL answers whether the key was still stored |
| StorageRuns.Run | src/cache/storage.cpp:33-554 | over any run of commands the store answers and holds what one timed map does; at each step victims leave only at nine tenths full and at most 1024, no other key is new, and a DEL reply is exact; a run of at most nine tenths of the capacity evicts nothing |
| StorageRuns.CountsDeadKey | src/cache/storage.cpp:175-195 | a key past its deadline that no client sees and DEL counts |
| Restores.Restore | src/command/restore_cmd.cpp:12-58 | replies in the order of the command's checks, a throwing decode included; a refusal changes nothing, success stores the decoded object with now plus the time to live, or no deadline for one not above 0 |
| Restores.AnswerIff | src/command/restore_cmd.cpp:12-58 | each answer exactly by what a caller can check: arity, a numeric time to live, a live key without REPLACE, memory for the list, a payload that decodes |
| Restores.RequestArrives | src/cluster/cluster_connection.cpp:319-350 | the receiver of a tagged frame ends up with the sender's id and argument list |
| Restores.ValueSurvives | src/cluster/replication_mgr.cpp:294-348 | serialize, RESTORE, tag, frame, unframe, parse, decode: a target with memory for it holds an equal object and its remaining time to live |
| Rdb.BeRoundTrip | src/persistence/rdb.cpp:557-606 | big-endian numbers within their width read back |
| Rdb.KvIs | src/persistence/rdb.cpp:644-729 | a savable record reads back whole, whatever follows |
| Rdb.MarkerTakenIff | src/persistence/rdb.cpp:680-699 | on a written record the reader takes the deadline branch exactly for a deadline or a key length starting with 0xFE, and finds the deadline written exactly when not misled |
| Rdb.KvReadBackIff | src/persistence/rdb.cpp:644-729 | a storable record is read back as itself if and only if its key length is not taken for the marker |
| Rdb.FileRoundTrip | src/persistence/rdb.cpp:127-539 | a saved file loads to exactly the records saved and ends at the end marker, for any checksum function |
| Rdb.FileRoundTripIff | src/persistence/rdb.cpp:127-539 | a saved file of storable records loads to them if and only if no record without a deadline looks as if it had one |
| Rdb.LongKeyMisread | src/persistence/rdb.cpp:680-699 | a file with one key of 0xFE000000 bytes and no deadline that does not load to it |
| RdbFormat.LoadsIff | src/persistence/rdb.cpp:388-539 | for all bytes and any checksum function: a file loads to given records if and only if it is empty, or is magic, version, data bases of well-formed records that mean exactly them, end marker and checksum |
| Rdb.UpToFirstBad | src/persistence/rdb.cpp:465-495 | what reaches the store is what is read up to the first bad record, or all |
| Rdb.GoodRecordsAre | src/persistence/rdb.cpp:465-539 | an accepted file reaches the store whole |
| Rdb.LoadedIsLive | src/persistence/rdb.cpp:472-493 | loading a listing of a map gives its live part, deadlines to the millisecond |
| Rdb.SaveThenLoad | src/persistence/rdb.cpp:127-539 | both together |
| RdbFiles.RdbReader.ReadText | src/persistence/rdb.cpp:617-642 | the cursor reads a string and never past the checked part |
| RdbFiles.RdbReader.ReadObject | src/persistence/rdb.cpp:772-817 | the adders build the value the reading function describes |
| RdbFiles.RdbReader.ReadKvPair | src/persistence/rdb.cpp:680-729 | marker, step back, key, type and value as the reading function |
| RdbFiles.StoreLoaded | src/persistence/rdb.cpp:481-495 | a live record is stored with what is left of its time to live, an expired or nameless one is skipped |
| RdbFiles.RdbReader.LoadRecords | src/persistence/rdb.cpp:465-495 | the counted loop reads and stores exactly the records up to the first bad one, each as it goes |
| RdbFiles.LoadFile | src/persistence/rdb.cpp:388-539 | accepted exactly when header, checksum, records and end marker fit; the store gains exactly the records up to the first bad one, nothing leaving while ten times all keys are within nine times the capacity; without a good header and checksum nothing changes |
| RdbFiles.RdbWriter.WriteKvPair | src/persistence/rdb.cpp:644-678 | appends the record for the order the container iterates in |
| RdbFiles.SaveFile | src/persistence/rdb.cpp:127-183 | the written bytes are the file |
| Snapshots.AllObjectsWithTtl | src/cache/storage.cpp:376-399 | every live key exactly once with value and absolute deadline |
| Snapshots.SaveAndLoad | src/persistence/rdb.cpp:127-539 | a store saved and loaded later into an empty one large enough comes back key by key, minus what has expired meanwhile |
| Replication.StepKeepsInv | src/cluster/replication_mgr.cpp:118-256 | each step keeps every applied write remembered, sent, or still to be copied, queued or pushed |
| Replication.NoWriteLost | src/cluster/replication_mgr.cpp:118-256 | under every interleaving of any writers with one full sync, a finished write is in the snapshot or was sent |
| Replication.AtMostTwice | src/cluster/replication_mgr.cpp:133-149 | only executed writes are sent, each at most twice |
| Replication.SentExactly | src/cluster/replication_mgr.cpp:118-256 | after the sync a command has been sent once for being queued during the snapshot and once for being pushed, no more and no less |
| Replication.CopiesConserved | src/cluster/replication_mgr.cpp:118-256 | pending list, backlog and wire conserve commands through every step |
| ReplicationOrder.OrderKeptIff | src/cluster/replication_mgr.cpp:118-256 | over every run, every copy of one command was sent before every copy of another if and only if no step sent the other while a copy of the first was remembered, or was yet to be queued or pushed |
| ReplicationOrder.FinishedFirstIff | src/cluster/replication_mgr.cpp:118-256 | a command through before another came to the locked section was sent first, every copy, if and only if the other was never pushed while it was in the backlog |
| ReplicationOrder.WireIsPushOrder | src/cluster/replication_mgr.cpp:118-150 | without a sync a following replica gets the commands in the order of the pushes, each once |
| ReplicationOrder.OvertakenWithoutSync | src/cluster/replication_mgr.cpp:118-150 | a run without a sync in which the command of the older write is sent last |
| ReplicationOrder.OlderCommandSentLast | src/cluster/replication_mgr.cpp:133-149 | a run of two writes, one after the other, in which the older command is sent twice, the second time after the newer |
| ReplicationBuffers.ReplicationBuffer.Add | src/cluster/replication_mgr.cpp:96-116 | the command lands at the offset where the stream stood, and the older half goes exactly beyond ten megabytes |
| ReplicationBuffers.ReplicationBuffer.Cleanup | src/cluster/replication_mgr.cpp:166-180 | the older half goes and the rest still addresses the same bytes of the stream |
| ReplicationBuffers.ReplicationBuffer.CommandsFrom | src/cluster/replication_mgr.cpp:152-164 | the entries from the first at the offset on; from a command boundary still buffered, exactly the rest of the stream |
| Migrate.StepKeepsInv | src/cluster/cluster_connection.cpp:319-381 | ids, the pending table, messages and replies stay consistent under every step |
| Migrate.KeyNeverLost | src/command/cluster_cmd.cpp:843-930 | under delays, drops, time-outs and late replies a key that was somewhere stays somewhere |
| Migrate.OnlyRestoredKeysLeave | src/command/cluster_cmd.cpp:913-930 | a key leaves the source only by a removal whose own RESTORE put it on the target |
| Migrate.RestoreAnsweredIff | src/command/restore_cmd.cpp:36-58 | a request for a key the target has, without REPLACE, is answered no and changes nothing; any other puts the value there and is answered yes |
| Migrate.TargetKeepsItsKeys | src/command/restore_cmd.cpp:36-58 | over every run, a target's key changes only by a client's write there or by a request that replaces or found it absent |
| Migrate.SourceKeptUnlessAnswered | src/command/cluster_cmd.cpp:913-930 | the key leaves the source exactly if the answer was yes; a no, a failed send or giving up leaves the source as it is |
| Migrate.StaleEntriesGo | src/cluster/cluster_connection.cpp:339-343 | registering a request drops exactly the waiting entries whose deadline has passed |
| Migrate.NoEntryLeft | src/cluster/cluster_connection.cpp:345-370 | whoever stops waiting, with an answer or without, takes its own entry out of the table and no other; an answer is the one that came |
| Migrate.ReplyReachesWaiter | src/cluster/cluster_connection.cpp:319-381 | a reply reaches the entry of its id if it is still waiting, and changes nothing otherwise |
| Migrate.MigrationIsSafe | src/command/cluster_cmd.cpp:843-930 | over all runs: no key lost, replies only to the request that caused them, deletion only after that request's success |
| Migrate.ValueKeptIff | src/command/cluster_cmd.cpp:843-930 | what a removal deletes is what the target holds if and only if the source still has the value that was read |
| Migrate.WritesKeptIff | src/command/cluster_cmd.cpp:843-930 | over every run: the target holds the value that was read, the source the last value written since, and they are the same if and only if the writes between read and removal left the same value |
| Migrate.WriteDuringMigrationLost | src/command/cluster_cmd.cpp:843-930 | a run in which a client's write on the source disappears from both nodes |
| RwLock.RwLockIsSafe | src/base/lock.cpp:301-353 | in every reachable state a writer is alone, the counters equal holders and waiters, and no un-notified sleeper could go on |
| RwLock.WritersGoFirst | src/base/lock.cpp:303-309 | no reader enters while a writer waits |
| RwLock.GrantedIff | src/base/lock.cpp:301-353 | a reader gets in exactly when nobody writes or waits to write, a writer exactly when nobody reads or writes, trying or waiting |
| RwLock.NeverStalls | src/base/lock.cpp:301-353 | when nobody holds the lock and somebody sleeps, a notified sleeper gets in |
| Barrier.GenerationsAreFull | src/base/lock.cpp:574-596 | without reset every finished generation released exactly `parties` different threads, each index below `parties` to exactly one |
| Barrier.ReleasedIff | src/base/lock.cpp:574-612 | in every reachable state a waiter that wakes returns, with its index, exactly when its generation is over, and otherwise goes back to sleep |
| Barrier.TripsIff | src/base/lock.cpp:574-596 | in every reachable state the last of the parties ends the generation and returns at once with index 0; anyone else sleeps with the number still missing as index |
| Barrier.ResetReleases | src/base/lock.cpp:598-603 | in every reachable state a reset starts a full new generation, and everyone asleep is notified and returns on waking |
| Barrier.WaitersCounted | src/base/lock.cpp:574-612 | with resets, parties minus count equals the waiters of the current generation and no older waiter stays asleep |
| ThreadPool.AcceptedTasksAreTaken | src/base/thread_pool.cpp:38-108 | tasks are taken at most once, in order, and all of them by the time every worker has exited |
| ThreadPool.RejectedIff | src/base/thread_pool.h:147-156 | a submit is rejected exactly when the stop flag is up as it looks |
| ThreadPool.NoneRejectedBeforeStop | src/base/thread_pool.h:147-156 | over every run, a rejected task means that the stop flag is up |
| ThreadPool.ShutdownWakesEveryone | src/base/thread_pool.cpp:38-57 | after the stop's notification no worker sleeps un-notified or goes back to sleep |
| ThreadPool.ShutdownCompletes | src/base/thread_pool.cpp:38-108 | stop always returns: once the flag is set every run is bounded, and when nobody can move all workers have exited and every accepted task was taken once |
| ThreadPool.StepWorksOff | src/base/thread_pool.cpp:59-108 | after the flag is set every step of any thread leaves strictly less to do |
| ThreadPool.StuckIsDone | src/base/thread_pool.cpp:59-108 | no deadlock: when no step is possible every worker has exited |
| ThreadPool.TakeNeverStuck | src/base/thread_pool.cpp:88-108 | a worker never pops an empty queue |
| ThreadPool.QueuedTaskIsWatched | src/base/thread_pool.h:147-156 | a queued task has a worker that will look or a notification on its way |
| Slots.OneOwner | src/cluster/cluster_state.cpp:121-148 | when map and lists agree no two nodes claim one slot |
| Slots.ClusterState.AddSlots | src/command/cluster_cmd.cpp:354-397 | accepted exactly when there are slots, all from 0 to 16383 and none another node's; up to the first of those, exactly the free ones become this node's and no other slot changes |
| Slots.ClusterState.DelSlots | src/command/cluster_cmd.cpp:498-506 | exactly the given slots this node owns are freed |
| Slots.ClusterState.SetSlotNode | src/command/cluster_cmd.cpp:576-601 | the slot moves to the named node in map and lists, and nothing else does |
| Slots.ClusterState.DelNode | src/cluster/cluster_state.cpp:34-78 | the node's slots are freed and its object is gone, unless it is this node's own; map and lists agree afterwards if and only if it was not this node's object with slots |
| Slots.RemovesItself | src/cluster/cluster_state.cpp:34-78 | a node that owns a slot and removes itself: no owner in the map, the slot still on its list |
| Slots.FailsOverUnknown | src/cluster/cluster_server.cpp:934-967 | a node that has removed itself and then takes over its master: the map still names the master, and nobody lists the slot |
| Slots.ClusterState.CompleteFailover | src/cluster/cluster_server.cpp:934-967 | all slots of the old master, and only those, go to the node of this node's name; while that name is unknown only the master's list is emptied, and map and lists agree if and only if it was empty |
| Slots.ClusterState.SetSlotOwner | src/cluster/cluster_server.cpp:453-473 | nothing for an unknown name; otherwise the map names the node, and its list has the slot once |
| Slots.ClusterState.Step | src/cluster/cluster_server.cpp:453-967 | after any operation map and lists agree if and only if it is not one of the two kinds that break it |
| Slots.Run | src/cluster/cluster_server.cpp:453-967 | over every run map and lists agree, up to the first operation of the two kinds that break it |

## Left out

- epoll, sockets, reactors, signals, logging, configuration, INFO text and scripts: plumbing without a property of this kind.
- Key-to-slot hashing: it is not the published CRC16 or hash-tag rule, so there is no law to prove.
- Election and gossip: the epoch does not travel and acknowledgements are counted twice, so election safety does not hold; gossip replaces a node's slot list without the map, so it is no step of the slot runs.
- Nesting.ScannerMissesNothing: the item right behind an array header must not have a `*` in its line or a type byte where its bulk text starts, because then the scanner goes on inside the text; element by element `Nesting.ElementByElementIff` has no such restriction.
- Nesting.ScannerAgreesWithParser: the same restriction.
- Nesting.NestedArrayScannedIff: the same restriction; `Nesting.NestedEndIs` has none.
- BusLinks.ClusterLink.HandleRead: partial-frame time-outs are not modelled; after foreign bytes it says what is skipped, not that the next frame is found: the skip can drop a header that has only partly arrived.
- BusLinks.ClusterLink.SendMsg: the sender name that is filled in when missing is part of the header bytes given.
- StorageRuns.Run: times do not go back, because a dead key that is still stored would come back with them.
- Storages.GlobalStorage.Get: one atomic step; the source drops its lock between finding a dead key and deleting it.
- Storages.GlobalStorage.EvictIfNeeded: nine tenths and six tenths are exact, not rounded doubles; the dirty counter is not modelled.
- ClientConnections.ClientConnection.HandleRead: the command callback does not close the connection, and replies are not modelled.
- CentralCaches.CentralCache.Allocate: free lists are sequences in a span; `FreeLists` proves that the chain through the objects' memory does the same. One call is one step, though classes have their own locks and meet only in the page cache.
- Snapshots.AllObjectsWithTtl: one instant; the source locks one shard after another, which is what `Replication.NoWriteLost` accounts for.
- Replication.NoWriteLost: one replica, registered throughout, one full sync, sends that succeed.
- Slots.Run: other node objects end with their entry in the table, since the pointer a replica keeps to its master is weak.
- Slots.ClusterState.SetSlotNode: the migrating and importing marks, which it clears, are not modelled.
- Migrate.MigrationIsSafe: clients write but do not delete, and keys do not expire or get evicted during the run; request ids do not wrap around.
- Pages.PageCache.AllocateSpan: spans are references into an arena, not raw pointers; the ring itself is `SpanLists`.
- CacheObjects.CacheObject.Serialize: a sorted set is listed in some order, not by score; nothing read back depends on it.
- Range queries (LRANGE, ZRANGE), list and set pops: the index arithmetic differs from Redis for far-negative indices.
- Locks other than RWLock2 and CyclicBarrier, and memory-order details.
