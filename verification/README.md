# A verified model of the cpp-alls server core

This project models the parts of cpp-alls that keep state, and proves in Dafny what they keep:

- the wire format of `response <<` and `request >>`, the two buffers behind it, and the blocking raw
  TCP connection (`LittleEndian`, `Wire`, `WireFormat`, `Streams`, `ClientSession`, `Framing`);
- the string echo server over `async_connection_fast`, and the system of a client and that server
  (`EchoServer`, `EchoSystem`, `EchoClient`);
- the slab allocator (`SlabAllocator`, `SlabRuns`);
- the thread pool of `boost_io_service` (`WorkerPool`, `BoostIoService`);
- the application registry of the server and its merged configuration (`ConfigMerge`, `Registry`,
  `Server`);
- the chain of receives of the UDP acceptor (`UdpAcceptor`).

`dafny verify dfyconfig.toml` checks everything.

Objects that the program updates in place are classes, whose methods are proved against functions on
values; what the program promises is proved about those functions, over all inputs, all runs or all
interleavings. The network is an adversary: a send or receive moves any number of bytes, at least one. What
an application object does when it is called, and whether it throws, is arbitrary. Threads interleave
between any two steps. Numbers are unbounded in Dafny; the widths that matter (32-bit length prefixes and
byte counts, the unsigned loop bound of the allocator, the 16-bit thread count) are written out. Two of them
are the platform's: `char` is taken as signed, and `long` and `unsigned long` as 8 bytes.

## Where the code does not do what it seems meant to do

Each of these is modelled as written, with the exact condition under which the meant property holds.

- A value survives the wire exactly when all its lengths are below 2^32 and it contains no `bool`, `char` or
  `unsigned char`: these are written as four bytes and read as one (`Wire.RoundTripExactly`,
  `Wire.NarrowVectorReadBack`). With a lone narrow value this goes unnoticed: the three extra bytes are never
  read.
- A flush of 2^32 bytes or more loses the excess (`ClientSession.FlushExactly`).
- `put_data` at a position inside the buffer inserts at offset `size`. A length-prefixed frame is therefore
  the meant one exactly when the payload already begins with the header (`Framing.SentFrameExactly`).
- An extraction that must read succeeds exactly when no unread bytes are left over; otherwise those bytes are
  lost (`Streams.StackRequest.ExtractData`). One public `read` ahead of two extractions shows it
  (`Streams.ReadAheadBreaksExtraction`).
- After an extraction that met the end of the stream, the next one of that size returns the end of the stream
  filled up with zero bytes (`Streams.EndOfFileBecomesZeros`).
- An allocation of at least `count * (block size - 1)` bytes makes the search read behind the use bytes
  (`SlabRuns.OversizedExactly`).
- A shrink followed by a grow leaves two threads with one index exactly when a worker of the larger pool has
  not left yet (`WorkerPool.GrowthExactly`).
- The stop loop of `reload` runs over all registered instances, not over the dropped ones: after a reload
  every registered application was stopped (`Registry.ReloadStopsEverything`).
- `start` fails on a repeated name only after having started the second application, which is then left
  running and registered nowhere; `reload` accepts repeats (`Registry.StartNeedsDistinctNames`,
  `Registry.RepeatIsStartedAndLost`).
- The comment in `src/apps/boost_tcp/udp.cpp` says that there is a single acceptor thread. There is one
  outstanding receive exactly when starts and reloads exceed the aborted peeks by one, stops or not; a reload
  adds a second one (`UdpAcceptor.SingleOutstandingExactly`, `UdpAcceptor.ReloadDoubles`).

## Model

| member | source | states |
|---|---|---|
| LittleEndian.LittleRoundTrip | src/core/response.cpp:7-11 | reading the little-endian bytes of an integer gives the integer |
| LittleEndian.LittleCanonical | src/core/request.cpp:6-10 | every byte string is the little-endian form of what is read from it |
| Wire.ScalarRoundTrip | src/core/request.cpp:30-60 | signed and unsigned integers of 2, 4 and 8 bytes read back equal |
| Wire.ScalarCanonical | src/core/request.cpp:15-60 | any bytes read as a scalar give a value in range, and for wide scalars writing it gives the bytes back |
| Wire.UIntRoundTrip | src/core/response.cpp:33-35 | the 32-bit length prefix reads back and leaves what follows |
| Wire.DecodeEmit | include/cppalls/core/request.hpp:34-49 | every bounded value of every type without narrow scalars reads back and leaves what follows |
| Wire.DecodeSound | include/cppalls/core/request.hpp:34-49 | any successful read yields a well-typed bounded value and consumes exactly its size; without narrow scalars, exactly its encoding |
| Wire.EmitLength | src/core/response.cpp:16-35 | each narrow scalar costs the writer three bytes more than the reader takes |
| Wire.RoundTripExactly | src/core/response.cpp:65-70 | writing succeeds and reading restores value and rest if and only if all lengths fit 32 bits and nothing narrow is inside |
| Wire.WideTypesRoundTrip | include/cppalls/core/response.hpp:34-46 | all bounded values of a type survive if and only if the type has no narrow scalar inside |
| Wire.EmitInjective | src/core/response.cpp:7-70 | for bounded values of one type, the bytes written, followed by anything, determine the value and what follows |
| Wire.PrefixFree | src/core/response.cpp:7-11 | no encoding of a bounded value is a proper prefix of another of the same type, narrow scalars included |
| Wire.OversizedVectorCollides | include/cppalls/core/response.hpp:34-46 | a vector of 2^32 elements begins like an empty one, so the bound is needed |
| Wire.SequenceRoundTrip | src/core/request.cpp:74-80 | bounded values of any types without narrow scalars, written one after the other, read back in turn |
| Wire.SequenceRoundTripExactly | src/core/request.cpp:74-80 | over values of any types: writing them all succeeds and reading them in turn restores them and the rest if and only if all lengths fit and nothing narrow is inside any |
| Wire.NarrowBytes | src/core/response.cpp:16-19 | a narrow scalar is written as its byte and three sign-extension bytes |
| Wire.NarrowReadBack | src/core/request.cpp:15-28 | a lone narrow scalar reads back equal and leaves three extension bytes |
| Wire.NarrowVectorReadBack | include/cppalls/core/request.hpp:34-49 | a vector of n narrow scalars reads back with element i equal to v[i/4] when 4 divides i and to its extension otherwise, and leaves 3n bytes |
| WireFormat.ShortFormat | src/core/response.cpp:21-27 | `short` is -2^15 to 2^15-1, `unsigned short` 0 to 2^16-1; both are written as two bytes, the low one first |
| WireFormat.IntFormat | src/core/response.cpp:29-35 | `int` and `unsigned int` have 32 bits and are written as four bytes, the low one first |
| WireFormat.LongFormat | src/core/response.cpp:37-51 | the 64-bit types have 64 bits and are written as eight bytes, the low one first |
| WireFormat.NarrowFormat | src/core/response.cpp:16-19 | `bool` is 0 or 1, `char` -128 to 127, `unsigned char` 0 to 255; all are written as the four bytes of an int |
| WireFormat.NarrowReads | src/core/request.cpp:15-28 | they are read from one byte; any byte but 0 is true, and bytes from 128 on are negative characters |
| WireFormat.StringFormat | src/core/response.cpp:65-70 | a string is its length in four bytes and its characters; it throws, and writes nothing, from 2^32 characters on |
| WireFormat.VectorFormat | include/cppalls/core/response.hpp:34-46 | a vector is the low 32 bits of its length in four bytes and its elements; it throws if and only if an element does |
| WireFormat.ItemsFormat | include/cppalls/core/response.hpp:40-43 | the elements follow each other in order, up to the one that throws |
| WireFormat.ReadableExactly | src/core/request.cpp:30-80 | a type without narrow scalars is read if and only if the bytes begin with an encoding of a value of it |
| WireFormat.RestIsEnd | src/core/request.cpp:6-10 | what is left over, in success and in failure, is the end of the bytes |
| WireFormat.StarvesExactly | src/core/request.cpp:6-60 | a scalar runs out exactly below its 1, 2, 4 or 8 bytes, and takes nothing then |
| WireFormat.StringStarvesExactly | src/core/request.cpp:74-80 | a string is read exactly when its four length bytes and as many bytes as they say are there |
| WireFormat.VectorReads | include/cppalls/core/request.hpp:34-49 | a vector takes its length from four bytes and then that many elements |
| WireFormat.ItemsReadInTurn | include/cppalls/core/request.hpp:42-46 | each element is read from where the one before ended |
| Streams.StackResponse.PutData | src/core/stack_response.cpp:11-15 | appends at or behind the end; inside the buffer inserts at offset `size`, which lies behind its end if and only if the buffer is shorter |
| Streams.StackResponse.Put | src/core/response.cpp:65-70 | `<<` appends exactly the encoding, up to the oversized string that makes it throw |
| Streams.StackResponse.PutItems | include/cppalls/core/response.hpp:40-43 | the element loop appends the encodings in order and stops at the element that throws |
| Streams.EmitStops | include/cppalls/core/response.hpp:40-43 | nothing behind the throwing element is written |
| Streams.WriteAll | src/core/sync_connection.ipp:41-50 | the send loop ends and sends every byte once, in order, for every split |
| Streams.WriteWithoutSize | src/core/sync_connection.ipp:62-67 | sends the buffer up to its length modulo 2^32 and clears it |
| Streams.StackRequest.Resize | src/core/stack_request.cpp:43-45 | keeps the common part and fills with zero bytes |
| Streams.StackRequest.Shrink | src/core/stack_request.cpp:47-50 | keeps exactly the unread bytes |
| Streams.StackRequest.BaseExtract | src/core/stack_request.cpp:13-20 | takes the next bytes, or throws and takes nothing |
| Streams.StackRequest.FillFromSocket | src/core/sync_connection.ipp:84-93 | the receive loop ends, for every split; the buffer holds exactly the next bytes of the stream, or the stream ended and its end replaces the front of the buffer |
| Streams.StackRequest.ReadWithoutSize | src/core/sync_connection.ipp:105-112 | flushes first, then the buffer is the next `size` bytes of the stream |
| Streams.StackRequest.ExtractData | src/core/sync_connection.ipp:156-163 | an extraction that reads succeeds if and only if nothing unread is left over and the peer delivers enough; when it fails, what is left in the buffer is given exactly; nothing is received while data is held back |
| Streams.StackRequest.Take | src/core/sync_connection.ipp:156-163 | between extractions nothing is unread, so an extraction is the next bytes of the stream; after a failed one a bare request keeps its bytes, a connection has them in its buffer, filled up with zeros |
| Streams.StackRequest.Get | src/core/request.cpp:6-80 | `>>` equals decoding the unread bytes and the peer's stream directly, for every split; when they run out, what is left is what decoding left, as for a single extraction |
| Streams.StackRequest.GetItems | include/cppalls/core/request.hpp:42-46 | the element loop equals decoding that many elements, failures included |
| Streams.ReadAheadBreaksExtraction | src/core/tcp_connection.cpp:17-19 | a public `read` of 8 bytes, an extraction of 4 and one of 8: the last fails and loses 4 bytes, however much the peer delivers |
| Streams.EndOfFileBecomesZeros | src/core/sync_connection.ipp:105-112 | the extraction after one that met the end of the stream returns zero bytes that were never sent |
| ClientSession.FlushExactly | src/core/sync_connection.ipp:62-67 | a flush empties the buffer, sends it whole below 2^32 bytes, and keeps all bytes if and only if fewer than 2^32 are held |
| ClientSession.FlushLosesData | src/core/sync_connection.ipp:64 | 2^32 held bytes are cleared unsent |
| ClientSession.ConservationExactly | src/core/sync_connection.ipp:62-67 | over every run, sent bytes followed by held bytes are the bytes of all writes in order, throwing ones included, if and only if no flush overflowed |
| ClientSession.EmittedItems | include/cppalls/core/detail/sync_connection.hpp:36-41 | when no write throws, these are the encodings of the values as one sequence |
| ClientSession.SentExactly | src/core/sync_connection.ipp:62-67 | after a read or a flush everything written so far is sent, and what is written after it is held |
| ClientSession.DirectionsIndependent | include/cppalls/core/detail/sync_connection.hpp:36-41 | over every run, the values read depend on the peer's stream only and the bytes sent on writes and flushes only |
| ClientSession.Session | src/core/sync_connection.ipp:84-112 | every sequence of `<<`, `>>` and flushes completes exactly when strings fit and the stream suffices, with those values and bytes; no receive while data is held, whatever happens |
| Framing.WriteWithSize | src/core/sync_connection.ipp:69-82 | what leaves the socket for a payload, and that the buffer is cleared; the insertion lies behind the buffer if and only if the payload has one to three bytes |
| Framing.HeaderBytes | src/core/sync_connection.ipp:75-77 | the header is the payload's size plus four, in four bytes |
| Framing.SentFrameExactly | src/core/stack_response.cpp:11-15 | the frame is header then payload if and only if the payload fits and starts with its own header |
| Framing.SentFrameGarbled | src/core/sync_connection.ipp:75-77 | the frame of 1 2 3 4 is 1 2 3 4 8 0 0 0 |
| Framing.MeantFrameDelivered | src/core/sync_connection.ipp:128-137 | with the header in front, a receiver delivers the payload if and only if it fits |
| Framing.SentFrameDelivered | src/apps/boost_tcp/udp.cpp:190-195 | as written, a receiver delivers the payload if and only if it fits and starts with its own header, and reports a mismatch with its first four bytes otherwise |
| EchoServer.AsyncConnection.constructor | tests/application_echo_connection_processor.cpp:100-102 | a started connection has a read of four bytes pending |
| EchoServer.AsyncConnection.AsyncRead | src/apps/boost_tcp/async_connection_fast.hpp:119-127 | the request buffer is cleared and has the size to read, all zeros |
| EchoServer.AsyncConnection.ReadCompleted | tests/application_echo_connection_processor.cpp:78-98 | four bytes make it read as many as they say; a body makes it write four length bytes and the body |
| EchoServer.AsyncConnection.ReadFailed | tests/application_echo_connection_processor.cpp:89-93 | a failed read issues no further operation |
| EchoServer.AsyncConnection.WriteCompleted | tests/application_echo_connection_processor.cpp:66-76 | the response is cleared; nothing is pending if and only if the write failed or the processor closes, and otherwise a read of four bytes is |
| EchoServer.OneExchange | tests/application_echo_connection_processor.cpp:78-102 | four bytes and as many bytes as they say come back as they are |
| EchoServer.FailureIsLast | tests/application_echo_connection_processor.cpp:66-93 | after a failed read or write a connection does nothing more |
| EchoServer.ClosingRepliesOnce | tests/application_echo_connection_processor.cpp:66-76 | over every run a closing connection makes at most one reply, and is closed after it |
| EchoServer.OpenGoesOn | tests/application_echo_connection_processor.cpp:66-76 | one that does not close goes on for ever without failures, and waits for a length after each reply |
| EchoSystem.StreamHead | tests/application_echo_connection_processor.cpp:95-97 | four bytes at the front of a stream of strings are the length of the first |
| EchoSystem.ServerStringKeepsInv | tests/application_echo_connection_processor.cpp:78-87 | when the server has a whole string it is the next one written, and its reply is the encoding of it |
| EchoSystem.ClientStringKeepsInv | src/core/request.cpp:74-80 | when the client has a whole string it is the next one it wrote |
| EchoSystem.DoKeepsInv | src/apps/boost_tcp/async_connection_fast.hpp:111-127 | every step of client, server and queues keeps both stream equations |
| EchoSystem.RunKeepsInv | src/apps/boost_tcp/async_connection_fast.hpp:111-127 | so does every run |
| EchoSystem.EchoSafety | tests/application_echo_connection_processor.cpp:62-110 | in every reachable state the server's output, pending bytes included, encodes the first strings written, and the client read a prefix of what it wrote |
| EchoSystem.NoDeadlock | src/core/sync_connection.ipp:105-112 | a client waiting for a string it wrote is never stuck |
| EchoSystem.WorkDecreases | tests/application_echo_connection_processor.cpp:62-110 | every step that starts nothing new decreases the work left |
| EchoSystem.WaitsAreBounded | tests/application_echo_connection_processor.cpp:62-110 | a wait ends within the work left |
| EchoSystem.EveryWaitEnds | src/core/sync_connection.ipp:84-112 | a run that cannot go on leaves the client free, unless it asked for more strings than it wrote |
| EchoSystem.EveryStringComesBack | tests/application_echo_connection_processor.cpp:62-110 | for any strings a flush can carry there is a run at whose end the client has read exactly what it wrote |
| EchoClient.RunTied | src/core/sync_connection.ipp:105-112 | over every run, the client's moves keep the histories of its calls, sent and received bytes in step with its state |
| EchoClient.ClientIsSession | src/core/sync_connection.ipp:105-112 | at every point of every run, the client's calls as a session of a raw connection hold, send and read exactly what the client does; a read under way is the decoding of what it has taken and what is to come |
| SlabAllocator.FirstFit | include/cppalls/core/slab_allocator.hpp:44-71 | the lowest start of a free run that is long enough, none exactly when there is none |
| SlabAllocator.BlocksFit | include/cppalls/core/slab_allocator.hpp:26 | the blocks computed are the fewest whose counted bytes exceed the request |
| SlabAllocator.SearchIsFirstFit | include/cppalls/core/slab_allocator.hpp:46-62 | the search that skips ahead is first fit; it reads behind the row if and only if more blocks are asked for than there are |
| SlabAllocator.SlabAllocator.constructor | include/cppalls/core/slab_allocator.hpp:16-18 | all blocks are free |
| SlabAllocator.SlabAllocator.AllocateSingle | include/cppalls/core/slab_allocator.hpp:73-82 | equals first fit at length one |
| SlabAllocator.SlabAllocator.AllocateMultiple | include/cppalls/core/slab_allocator.hpp:44-71 | claims the first fit, and uses the heap exactly when there is none |
| SlabAllocator.SlabAllocator.Allocate | include/cppalls/core/slab_allocator.hpp:25-29 | the tiling is kept, and the new state is first fit's |
| SlabAllocator.SlabAllocator.Deallocate | include/cppalls/core/slab_allocator.hpp:31-41 | frees exactly the run of a live block pointer; a heap pointer leaves the row alone |
| SlabAllocator.ClaimKeepsTiled | include/cppalls/core/slab_allocator.hpp:64-67 | claiming a free run keeps the tiling, and its pointer was not live |
| SlabAllocator.ReleaseKeepsTiled | include/cppalls/core/slab_allocator.hpp:33-37 | releasing a live run keeps the tiling |
| SlabAllocator.AllocateKeepsWellFormed | include/cppalls/core/slab_allocator.hpp:25-29 | every request within the bound keeps live runs and use bytes in step |
| SlabAllocator.DeallocateKeepsWellFormed | include/cppalls/core/slab_allocator.hpp:31-41 | so does every release of a live pointer |
| SlabAllocator.AllocatedExactly | include/cppalls/core/slab_allocator.hpp:25-29 | a block pointer is the head of a new run of the blocks required, for the size requested; otherwise one heap allocation of that size is new; nothing else changes |
| SlabAllocator.AllocatedBytes | include/cppalls/core/slab_allocator.hpp:64-67 | the head gets the number of blocks, the blocks behind it 255, all others keep their byte |
| SlabAllocator.DeallocatedExactly | include/cppalls/core/slab_allocator.hpp:31-41 | the one run or heap allocation is gone, and no other |
| SlabAllocator.DeallocatedBytes | include/cppalls/core/slab_allocator.hpp:33-37 | exactly the blocks of the run become free |
| SlabRuns.After | include/cppalls/core/slab_allocator.hpp:25-41 | so does every sequence of them |
| SlabRuns.BytesMeanRuns | include/cppalls/core/slab_allocator.hpp:91-94 | the bytes between 0 and 255 are exactly at the live pointers, 255 exactly inside live runs, 0 exactly elsewhere |
| SlabRuns.AllocationServesRequest | include/cppalls/core/slab_allocator.hpp:25-29 | every request within the bound gets a run inside the storage with more bytes than it asked for, or a new heap allocation of its size |
| SlabRuns.AllocationIsApart | include/cppalls/core/slab_allocator.hpp:64-67 | the new run shares no block with any live one, and those stay |
| SlabRuns.LiveUntilReleased | include/cppalls/core/slab_allocator.hpp:25-41 | over every run an allocation stays what it is until it is released |
| SlabRuns.LiveRunIsLargeEnough | include/cppalls/core/slab_allocator.hpp:26 | a live run lies inside the storage and has more bytes than the size it is recorded with |
| SlabRuns.LiveRunsAreDisjoint | include/cppalls/core/slab_allocator.hpp:64-67 | two live runs share no byte |
| SlabRuns.Conservation | include/cppalls/core/slab_allocator.hpp:25-41 | after every run, free blocks and blocks of live runs make up the row |
| SlabRuns.AllocationTakesBlocks | include/cppalls/core/slab_allocator.hpp:64-67 | a block pointer costs exactly the blocks its request requires |
| SlabRuns.ReleaseUndoesAllocate | include/cppalls/core/slab_allocator.hpp:31-41 | an allocation followed by its release restores all use bytes and everything live |
| SlabRuns.AllReleasedIsEmpty | include/cppalls/core/slab_allocator.hpp:31-41 | when nothing is live on the slab, in whatever order it was freed, the use bytes are those of a new allocator |
| SlabRuns.HeapIsTheLastResort | include/cppalls/core/slab_allocator.hpp:70-81 | the heap is used if and only if no free run is long enough; a block pointer is the lowest fit |
| SlabRuns.OversizedExactly | include/cppalls/core/slab_allocator.hpp:46 | the search reads behind the use bytes if and only if the size is at least count * (block size - 1) |
| SlabRuns.ConnectionAllocator | include/cppalls/core/slab_allocator.hpp:84-85 | with 4 blocks of 256 bytes that is from 1020 bytes on |
| WorkerPool.ThreadsCount | src/apps/boost_io_service/boost_io_service.cpp:47-63 | the count is between 1 and 65535, and the configured one, the hardware's or 2 when that fits; a larger one becomes 65535 |
| WorkerPool.DoKeepsInv | src/apps/boost_io_service/boost_io_service.cpp:28-45 | every step of workers and controller keeps each index below the target served or pending |
| WorkerPool.EveryIndexServed | src/apps/boost_io_service/boost_io_service.cpp:74-91 | over every interleaving, outside `stop`, each index below the target is served or still to be created; outside `reload`, served; with target 0 no worker is left |
| WorkerPool.GrowthExactly | src/apps/boost_io_service/boost_io_service.cpp:84-91 | after a grow, whatever interleaves, workers have distinct indices if and only if no worker was left over in the grown range |
| WorkerPool.QuickRegrowDoubles | src/apps/boost_io_service/boost_io_service.cpp:82-99 | shrinking from two threads to one and growing at once leaves two workers with index 1 |
| WorkerPool.ExactlyOnePerIndex | src/apps/boost_io_service/boost_io_service.cpp:74-91 | when every grow finds the shrinks drained, each index below the target has exactly one worker |
| WorkerPool.AtMostOneMoreTask | src/apps/boost_io_service/boost_io_service.cpp:31-36 | while the target stays at or below its index, a worker finishes at most the task it was in |
| WorkerPool.ShrunkWorkerLeaves | src/apps/boost_io_service/boost_io_service.cpp:28-45 | it takes at most two more steps, and can take one until it has left: a shrunk pool drains |
| WorkerPool.JoinEnds | src/apps/boost_io_service/boost_io_service.cpp:102-109 | joining ends: worker steps are bounded, and one is possible while any worker is left |
| WorkerPool.RestartIsClean | src/apps/boost_io_service/boost_io_service.cpp:102-112 | after `stop` no worker is left, and the next start builds exactly one worker for each index from 0 |
| BoostIoService.IoService.RunStep | src/apps/boost_io_service/boost_io_service.cpp:28-45 | a worker that checks goes on if and only if the target is above its index; one that returns from run_one leaves if and only if that returned 0; this is a step of the protocol |
| BoostIoService.IoService.Reload | src/apps/boost_io_service/boost_io_service.cpp:74-100 | when it returns every index below the new count is served, whatever ran in between its store and its thread creations; when the logger lookup throws only the work was set |
| BoostIoService.IoService.CreateThreads | src/apps/boost_io_service/boost_io_service.cpp:84-91 | one thread for each index from the old count to the new one |
| BoostIoService.IoService.BeginStop | src/apps/boost_io_service/boost_io_service.cpp:106-108 | the work is released, the target set to 0 and the service stopped, in this order, with any steps of workers in between |
| BoostIoService.IoService.JoinAll | src/apps/boost_io_service/boost_io_service.cpp:109 | whatever worker takes a step and whatever step it takes, it ends with no worker in its loop |
| BoostIoService.IoService.Stop | src/apps/boost_io_service/boost_io_service.cpp:102-112 | it ends under every schedule; no worker is left, and the pool can be started again |
| ConfigMerge.SortSorts | src/core/server.cpp:201 | the file names are put into that order, none lost or added |
| ConfigMerge.SortedUnique | src/core/server.cpp:201 | there is one ordered arrangement of given names |
| ConfigMerge.LessExactly | src/core/server.cpp:201 | a name comes before another if and only if it is a proper prefix of it or has the smaller character where they first differ |
| ConfigMerge.FirstDifference | src/core/server.cpp:201 | so names that differ behind a common prefix are in the order of their next characters |
| ConfigMerge.PrefixIsLess | src/core/server.cpp:201 | and a proper prefix comes first |
| ConfigMerge.ReadSingleConfigFile | src/core/server.cpp:179-217 | appends the lists of the location's files in name order, or fails when one cannot be loaded; a file adds its own entries, and a path that is neither file nor directory nothing |
| ConfigMerge.LoadConcat | src/core/server.cpp:203-216 | files are loaded one after the other, repeated ones repeatedly |
| ConfigMerge.DirectoryInOrder | src/core/server.cpp:188-201 | a directory is read in the order of its names |
| ConfigMerge.TwoFilesInOrder | src/core/server.cpp:188-216 | of two files whose names first differ at x < y, the entries of the first come first, however they are listed |
| ConfigMerge.ReadConfig | src/core/server.cpp:219-244 | the main list followed by those of each entry of `configs`, in order |
| ConfigMerge.MergedConcat | src/core/server.cpp:231-241 | more dependent configurations add to the list so far |
| ConfigMerge.MergedOne | src/core/server.cpp:179-217 | what one of them adds, at the end of the list: the entries of a file, or of a directory in name order |
| ConfigMerge.EnumerationOrderIrrelevant | src/core/server.cpp:188-201 | the merged list does not depend on the order in which directories are enumerated |
| ConfigMerge.MergedContents | src/core/server.cpp:203-216 | reading fails if and only if a named file cannot be loaded; otherwise the list has exactly the entries of the main file and those files |
| Registry.ReloadLoop | src/core/server.cpp:317-334 | the loop succeeds if and only if no application throws and every new name has a known type; else the registry is what the entries before made it, with every earlier object kept |
| Registry.ReloadNeeds | src/core/server.cpp:318-334 | in a completed loop no application threw, and every name that is neither registered nor used before has a known type |
| Registry.ReloadStopReason | src/core/server.cpp:318-334 | a loop that stops does so at an entry that throws or has a new name of unknown type |
| Registry.ReloadRegisters | src/core/server.cpp:320-334 | each entry is in the new map under its `instance-name`, or its type when it has none; known names keep their object |
| Registry.LoopsKeepOld | src/core/server.cpp:260-334 | whatever becomes of a start or of the loop of a reload, what was registered keeps its object |
| Registry.ReloadTypes | src/core/server.cpp:326-328 | a new instance has the type of the first entry with its name |
| Registry.ReloadCalls | src/core/server.cpp:318-334 | up to where the loop stops each entry makes one call, to its own object, during which `get` finds all earlier instances and entries |
| Registry.ReloadStopCall | src/core/server.cpp:318-334 | the entry that stops the loop is a new name of unknown type, without a call, or one call that throws, during which `get` finds all earlier instances and entries |
| Registry.ReloadResult | src/core/server.cpp:306-345 | names are those of the configuration, the types are those of the new binaries, known names keep their object, new ones get a new object, dropped objects are unreachable and stopped once |
| Registry.StopsExactly | src/core/server.cpp:336-338 | the stop loop stops each registered object once, and nothing else |
| Registry.ReloadStopsEverything | src/core/server.cpp:336-340 | after a reload no registered application is running, so all are if and only if the list is empty |
| Registry.StartLoop | src/core/server.cpp:260-267 | succeeds if and only if types are known, nothing throws and no name repeats; else what earlier entries registered stays |
| Registry.StartNeeds | src/core/server.cpp:131-154 | in a completed start no application threw, every type is known and every name new |
| Registry.StartStopReason | src/core/server.cpp:131-154 | a start that stops does so at an entry that throws, has an unknown type or a taken name |
| Registry.StartRegisters | src/core/server.cpp:131-159 | each entry a start got through is registered under its `instance-name`, or its type when it has none, with an object of its type |
| Registry.TwoOfOneType | src/core/server.cpp:149-159 | two instances of one type under two names are two objects, after a start and after a reload |
| Registry.StartNeedsDistinctNames | src/core/server.cpp:149-154 | with known types and nothing throwing, a start succeeds if and only if names are distinct; a reload always does |
| Registry.RepeatIsStartedAndLost | src/core/server.cpp:147-154 | a repeated name throws after its application was started: that object is left running and registered nowhere |
| Registry.StartCalls | src/core/server.cpp:265-267 | up to where a start stops each entry makes one call, the start of its own object, during which `get` finds all earlier instances and entries |
| Registry.StartStopCall | src/core/server.cpp:131-162 | the entry that stops a start has an unknown type, or its object was started, threw or found its name taken, and is registered nowhere |
| Registry.ReloadOfStoppedIsStart | src/core/server.cpp:306-345 | with distinct names, reloading a stopped server registers the names that starting it does |
| Registry.ReloadOfStoppedTypes | src/core/server.cpp:306-345 | and with the same types |
| Server.Server.constructor | src/core/server.cpp:247-250 | nothing is registered, and the log is delayed |
| Server.Server.Get | src/core/server.cpp:287-296 | finds exactly the registered names |
| Server.Server.StartInstance | src/core/server.cpp:131-162 | constructs and starts, and only then refuses a name in the target map |
| Server.Server.InitLogger | src/core/server.cpp:164-177 | takes the configured logger, the built-in one, or throws and changes nothing; a registered application that is no logger is refused |
| Server.Server.Start | src/core/server.cpp:260-275 | the new state is that of the start loop, also when it throws in the middle; types known before keep their binary; the log is the configured one |
| Server.Server.StopAll | src/core/server.cpp:336-338 | one stop for each registered object, in any order |
| Server.Server.Stop | src/core/server.cpp:298-304 | every instance stopped exactly once, both maps empty |
| Server.Server.ReloadStep | src/core/server.cpp:318-334 | the loop body on the two maps |
| Server.Server.Reload | src/core/server.cpp:306-350 | unchanged on an unreadable configuration or changed binaries; else the state of the reload loop, the stop loop and the swaps; the binaries are the new ones and the log is the configured one |
| Server.Server.Construct | src/core/server.cpp:252-254 | registers one more instance, or throws |
| Server.Server.Free | src/core/server.cpp:256-258 | removes the name without a stop |
| UdpAcceptor.OutstandingAreChains | src/apps/boost_tcp/udp.cpp:144-201 | outstanding receives are starts plus reloads minus aborted peeks, whatever stops come in between |
| UdpAcceptor.SingleOutstandingExactly | src/apps/boost_tcp/udp.cpp:136-138 | over every run, stops included, exactly one receive is outstanding if and only if that difference is one |
| UdpAcceptor.SingleAcceptor | src/apps/boost_tcp/udp.cpp:144-201 | between a start and the next reload, stop or aborted peek, every completion arms exactly one successor on the current socket |
| UdpAcceptor.ReloadDoubles | src/apps/boost_tcp/udp.cpp:253-256 | a reload of a running acceptor ends with two peeks on the new socket |
| UdpAcceptor.ReadsWherePeeked | src/apps/boost_tcp/udp.cpp:144-188 | a packet is read on the socket it was peeked on, also after a reload to a new one |
| UdpAcceptor.StopDrains | src/apps/boost_tcp/udp.cpp:258-271 | after a stop the aborted peeks drain the acceptor |
| UdpAcceptor.DeliveredExactly | src/apps/boost_tcp/udp.cpp:190-195 | the length check accepts a packet if and only if it is a frame with its header in front |
| UdpAcceptor.FrameExactly | src/apps/boost_tcp/udp.cpp:190-195 | a frame is a packet below 2^32 bytes whose first four bytes are its size |
| UdpAcceptor.FramesAreDelivered | src/apps/boost_tcp/udp.cpp:178-201 | over every run, the payloads of the packets that are such frames reach the processor, in order, and nothing else does |
| UdpAcceptor.Unpack | src/apps/boost_tcp/udp.cpp:190-197 | the processor is given what follows a length that equals the packet's size, and nothing otherwise |
| UdpAcceptor.Udp.Start | src/apps/boost_tcp/udp.cpp:212-251 | a new socket, and one peek more |
| UdpAcceptor.Udp.Reload | src/apps/boost_tcp/udp.cpp:253-256 | a new socket and one peek more, the old operation still outstanding |
| UdpAcceptor.Udp.Stop | src/apps/boost_tcp/udp.cpp:258-271 | the pointers are cleared, the operations still outstanding |
| UdpAcceptor.Udp.OnAccept | src/apps/boost_tcp/udp.cpp:161-201 | an aborted peek ends the chain, an error peeks again, a packet is read on the socket it was peeked on |
| UdpAcceptor.Udp.OnBody | src/apps/boost_tcp/udp.cpp:178-199 | the next peek is issued first, whatever became of the packet; the processor gets what follows the first four bytes exactly when those are the size of the packet |

## Left out

- Streams.StackResponse.PutData: says when the insertion point lies behind the buffer, not what the program does
  then, which is undefined; so does `Framing.WriteWithSize`.
- SlabAllocator.SlabAllocator.Allocate: requires the size bound of `SlabRuns.OversizedExactly`; beyond it the
  program reads and writes behind its array.
- SlabAllocator.SlabAllocator.Deallocate: takes only live pointers; any other block pointer is undefined.
- EchoSystem.Enabled: a flush is taken only below 2^32 held bytes; `ClientSession.FlushExactly` has the
  other case.
- Server.Server.Reload: application objects are numbers, and which entries throw is an argument; applications that
  call `construct` or `free` from `start`, and a throwing `stop`, are not part of this model.
- UdpAcceptor.Enabled: while the pointers are cleared only aborted peeks complete; any other completion uses a
  null pointer.
- Floating point values: their bytes are the platform's.
- Sizes beyond memory: `reserve`, `resize` and `insert` never fail here.
- `read_with_size` of the client, except its length check: how much the socket calls available is the
  kernel's choice. The TLS variants: TLS is not part of this model.
- The TCP acceptor and the fixed-size echo processors: the same chain and the same stream equations as the
  modelled ones, with less state.
- YAML, directories, symbol scanning and DLL loading: parsed lists, listings and the type map are inputs. An
  `instance-name` that is not a plain value is not part of this model.
- The no-op tasks posted by a shrink: which worker takes them is the scheduler's choice, so only safety and
  the bound of `WorkerPool.AtMostOneMoreTask` are stated.
- Weak memory: the atomic target is one sequentially consistent variable.
- Loggers, severities, error-code mapping, `slab_allocator_ref`, `stack_pimpl` and the member-pointer
  overloads of `connection`: they would add only easy members.
