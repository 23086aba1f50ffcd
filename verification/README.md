# LibJuno model

LibJuno is a C11 library for embedded systems without dynamic allocation. This project models
six parts of it and proves what they promise:

- **Binary heap** (`HeapModel.dfy`, `Heap.dfy`, `HeapRuns.dfy`): sift-up, sift-down, heapify and pop
  over a fixed-capacity array, for any total preorder `Compare`.
- **Fixed-block allocator** (`BlockModel.dfy`, `Block.dfy`, `BlockRuns.dfy`): a bump counter and a
  stack of freed blocks.
- **CRCs** (`Crc.dfy`, `CrcTables.dfy`, `CrcUpdate.dfy`, `CrcMessages.dfy`,
  `CrcBits.dfy`, `CrcChecks.dfy`): the six table-driven update loops against a register clocked bit by bit.
- **Fixed-point time** (`Time.dfy`): timestamps in units of 1/(2^32-1) second.
- **Linear-probing map** (`MapModel.dfy`, `HashMap.dfy`, `MapRuns.dfy`).
- **Queue, broker and the two-thread example** (`Queue.dfy`, `BrokerModel.dfy`, `Broker.dfy`,
  `PipelineModel.dfy`, `Pipeline.dfy`).

Each object that the C code updates in place is a class whose methods follow the C loops and
branches; each method is tied to a function on values, and the theorems are about those
functions and about whole runs of them. `Arithmetic.dfy` and `Status.dfy` are shared.

## How outside behaviour enters

`Compare` and `Hash` are function parameters; `Compare` is a total preorder where order matters.
Array and pointer callbacks succeed on well-typed items. The allocator's `Reset` result is a
parameter of each call and may fail. `Send` and `Receive` results are parameters too: every
sequence of outcomes is covered, and the network may lose, repeat and reorder datagrams. Addresses
are numbers with 0 for NULL; the largest `size_t` is a parameter of the allocator, 2^w one of the
map.

## Where the code and its documentation part

- `include/juno/ds/heap_api.h` gives SUCCESS on success. Pop and Heapify can return OOB_ERROR after
  doing their whole work (`PopStatusIsReliable`, `HeapifyStatusIsReliable`).
- `include/juno/memory/memory_block.h` says double frees are rejected. A block that the bump counter
  has dropped past is accepted again (`DoublePutRefusedIff`, `SecondPutCanBeAccepted`).
- The same header enforces alignment per block. Only the base is checked, so a block size that is not
  a multiple of the alignment yields blocks that Put refuses (`EveryBlockAlignedIff`). A descriptor
  that Update set to size 0 is refused as well (`PutOfHeldBlock`).
- `include/juno/crc/crc.h` calls an empty update no update. It resets the register, which breaks
  streaming from the CCITT seeds (`EmptyFirstChunkFromInit`).
- `include/juno/ds/map_api.h` presents Remove as removing a key. It can hide other keys
  (`RemoveRefinesIff`, `RemoveCanLoseAKey`), and TABLE_FULL can be reported for a table with an empty
  slot exactly when `iHash + i` wraps and the capacity does not divide 2^w (`FullWithRoomIff`,
  `FullReportedWithRoom`).
- `include/juno/ds/queue_api.h` names INVALID_SIZE_ERROR and ERR for full and empty queues. The code
  returns OOB_ERROR for both.
- `include/juno/time/time_api.h` saturates when a subtraction would be negative. It also does so for
  one pair of denotations of the same instant (`SubtractSucceedsIff`).

## Model

| member | source | states |
|---|---|---|
| `Heap.Heap.constructor` | src/juno_heap.c:33-43 | an initialised heap is empty over the caller's array |
| `Heap.Heap.Update` | src/juno_heap.c:115-165 | bubbling the last element up yields exactly the sift-up of the contents and SUCCESS; the fuel counter never ends the loop early; an empty heap gives ERR unchanged |
| `Heap.Heap.SiftDown` | src/juno_heap.c:167-245 | for every start index the occupied prefix becomes the fuel-free, capacity-free sift; OOB_ERROR exactly when the element rests at j with 2j+2 > capacity, and j is then a leaf; slots past the length untouched |
| `Heap.Heap.Insert` | src/juno_heap.c:259-274 | full: ERR and nothing changes; otherwise SUCCESS, the heap order is kept and exactly the new item is added |
| `Heap.Heap.Heapify` | src/juno_heap.c:285-308 | any contents become a heap with the same elements whatever statuses the inner sifts report; the final status is OOB_ERROR iff the root sift, started on the contents just before it, rests at j with 2j+2 > capacity, whatever the earlier sifts reported |
| `Heap.Heap.Pop` | src/juno_heap.c:326-358 | whatever status is returned, an element that leaves is the root, is in Compare order with all others, and the rest is a heap of the remaining elements; OOB_ERROR iff the moved element rests at j with 2j+2 > capacity |
| `HeapModel.PreferredIs` | src/juno_heap.c:188-227 | which of root, left and right child a sift step prefers, ties included, for any Compare |
| `HeapModel.SiftDownTrail` | src/juno_heap.c:167-245 | a sift is pinned position by position: trail elements move up one place, the sifted one ends at its stop, nothing else moves, each step was to the preferred child |
| `HeapModel.SiftUpClimbs` | src/juno_heap.c:136-163 | an inserted element settles below the first ancestor that may stay above it; each element passed moves down one place and nothing else moves |
| `HeapModel.SiftUpReachesRoot` | src/juno_heap.c:136-163 | on any contents, a heap or not, the loop compares all the way up: the root ends in order with every element on the way |
| `HeapModel.BeforeRootIsOrdered` | src/juno_heap.c:294-306 | before its last sift a heapify has ordered everything below the root and not moved the root |
| `HeapModel.SiftDownOrders` | src/juno_heap.c:167-245 | one sift extends the ordered region from start+1 down to start and permutes the elements, for every total preorder Compare |
| `HeapModel.SiftDownRestores` | src/juno_heap.c:181-243 | the mid-sift state (only the pairs below the sifted element may be wrong) ends in order from the lower bound on |
| `HeapModel.SiftDownKeepsElements` | src/juno_heap.c:229-238 | a sift is a permutation, leaves earlier positions alone, and puts the sifted element where it stops |
| `HeapModel.SiftUpRestores` | src/juno_heap.c:136-163 | bubbling up from a state wrong only above one element restores the whole heap and permutes |
| `HeapModel.InsertedIsHeap` | src/juno_heap.c:270-273 | appending and bubbling up keeps the heap and adds exactly the item |
| `HeapModel.HeapifiedIsHeap` | src/juno_heap.c:294-306 | sifting (n-1)/2 down to 0 heapifies any non-empty contents without losing an element |
| `HeapModel.RootIsExtreme` | src/juno_heap.c:326-358 | the root of a heap is in Compare order with every element |
| `HeapModel.PoppedIsHeap` | src/juno_heap.c:340-356 | moving the last element to the root and sifting leaves a heap of all elements but the root |
| `HeapRuns.RunRefinesQueue` | src/juno_heap.c:259-358 | every run of insert, pop and build is a run of the bounded multiset priority queue, through heaps only; pops that leave at most half the capacity report SUCCESS |
| `HeapRuns.DrainSorts` | src/juno_heap.c:326-358 | popping a heap empty yields its elements, each once, in Compare order |
| `HeapRuns.PopStatusIsReliable` | src/juno_heap.c:353-357 | contents exist on which Pop removes its element yet returns OOB_ERROR iff more than half the capacity stays occupied |
| `HeapRuns.HeapifyStatusIsReliable` | src/juno_heap.c:301-307 | contents exist on which Heapify builds the heap yet returns OOB_ERROR iff more than half the capacity is occupied |
| `Block.Allocator.Init` | src/juno_memory_block.c:249-296 | counters zeroed, configuration stored; SUCCESS iff no parameter is missing, length * typeSize fits size_t and the base is aligned, else ERR |
| `Block.Allocator.Verify` | src/juno_memory_block.c:26-63 | the same condition for SUCCESS; NULLPTR_ERROR iff a parameter is zero |
| `Block.Allocator.Get` | src/juno_memory_block.c:66-137 | in-place counters and free stack follow the value model on every path, Reset rollback included; a refusal hands out no address |
| `Block.Allocator.Put` | src/juno_memory_block.c:159-239 | in-place counters, free stack and the caller's descriptor follow the value model on every path; success only for an aligned address of the pool off the free stack; a failed Put changes nothing |
| `Block.Allocator.Update` | src/juno_memory_block.c:140-156 | sizes up to the block size set the size field alone; larger ones give MEMALLOC_ERROR and change nothing |
| `BlockModel.BlockInsidePool` | src/juno_memory_block.c:43-56 | every block lies in the pool and no size_t product that places it wraps |
| `BlockModel.Config.GoodConfigurations` | src/juno_memory_block.c:30-56 | exactly which configurations are accepted: complete, total size within size_t, base aligned; block alignment is not asked for |
| `BlockModel.GetAcceptsIff` | src/juno_memory_block.c:66-137 | in every state, reachable or not: exactly when Get hands out a block, which one, and the state after; otherwise the address is NULL |
| `BlockModel.GetRefusals` | src/juno_memory_block.c:74-136 | the status and the state after each kind of refused Get |
| `BlockModel.PutAcceptsIff` | src/juno_memory_block.c:159-239 | in every state and for every descriptor: exactly when Put takes an address back and the state after; otherwise state and descriptor are unchanged |
| `BlockModel.PutRefusals` | src/juno_memory_block.c:159-239 | the status of every Put in every state and for every descriptor; an address outside the pool is never taken |
| `BlockModel.BlocksApart` | src/juno_memory_block.c:113-116 | distinct block indices are at least a block apart |
| `BlockModel.EveryBlockAlignedIff` | src/juno_memory_block.c:43-56 | all blocks satisfy Put's alignment check iff there is one block or the block size is a multiple of the alignment |
| `BlockRuns.GetOutcome` | src/juno_memory_block.c:66-137 | in reachable states Get refuses without effect or draws the top of the stocked stack; the corrupt-counters and descriptor failures are unreachable |
| `BlockRuns.GetKeepsInvariant` | src/juno_memory_block.c:92-136 | Get, successful or rolled back, keeps blocks below the counter split between free stack and holders |
| `BlockRuns.PutKeepsInvariant` | src/juno_memory_block.c:211-236 | Put of a held descriptor keeps the split, by lowering the counter or by pushing |
| `BlockRuns.RunKeepsInvariant` | src/juno_memory_block.c:66-239 | every run of Get, Put of held descriptors and Update keeps the invariant: free entries distinct, below the counter, disjoint from the held blocks, nothing missing |
| `BlockRuns.RunsNeverAlias` | src/juno_memory_block.c:66-239 | after any run each held block, even a single one, lies in the pool and off the free stack, and no two share a byte |
| `BlockRuns.GetSucceedsIffBlockFree` | src/juno_memory_block.c:92-101 | held + freed = used <= length, and a Get of legal size succeeds iff fewer than length blocks are held |
| `BlockRuns.PutOfHeldBlock` | src/juno_memory_block.c:159-239 | exactly when a held block can be returned: nonzero size field, aligned, Reset succeeds; the free-list overflow never strikes; failures change nothing |
| `BlockRuns.FailedGetIsHarmless` | src/juno_memory_block.c:127-136 | a run extended by a failed Get holds the same descriptors, at most moves one fresh block to the free stack, and later Gets succeed just as before |
| `BlockRuns.DoublePutRefusedIff` | src/juno_memory_block.c:186-210 | returning a block nobody holds is refused iff its index is still below the counter or the counter is zero |
| `BlockRuns.SecondPutCanBeAccepted` | src/juno_memory_block.c:217-222 | a concrete run in which a second Put of the same block is accepted and two Gets then return the same block |
| `CrcUpdate.ArcUpdate` | src/juno_arc.c:22-37 | the table loop returns the bit-at-a-time CRC (reflected 0xA001) of every message from every seed; 0 for NULL or empty |
| `CrcUpdate.KermitUpdate` | src/juno_kermit.c:22-37 | the same for reflected 0x8408 |
| `CrcUpdate.BinhexUpdate` | src/juno_binhex.c:22-37 | the same for MSB-first 0x1021 |
| `CrcUpdate.CcittUpdate` | src/juno_ccitt.c:22-37 | the same for MSB-first 0x1021 with its own table |
| `CrcUpdate.Ccitt32Update` | src/juno_ccitt32.c:21-36 | the same for MSB-first 0x04C11DB7 |
| `CrcUpdate.ZipUpdate` | src/juno_zip.c:21-36 | the same for reflected 0xEDB88320 with the final XOR; from seed 0xFFFFFFFF this is the CRC-32 of section 8 of RFC 1952 |
| `CrcTables.ArcTableCorrect` | src/crc/arc.h:18-51 | each of the 256 entries is eight clocks of the register on its index |
| `CrcTables.KermitTableCorrect` | src/crc/kermit.h:19-52 | likewise |
| `CrcTables.BinhexTableCorrect` | src/crc/binhex.h:18-51 | likewise |
| `CrcTables.CcittTableCorrect` | src/crc/ccitt.h:18-51 | likewise |
| `CrcTables.Ccitt32TableCorrect` | src/crc/ccitt32.h:18-83 | likewise |
| `CrcTables.ZipTableCorrect` | src/crc/zip.h:18-83 | likewise |
| `Crc.ByteStepSplits` | src/juno_zip.c:31-33 | eight clocks of register XOR byte equal the moved register XOR one table look-up, in all six variants |
| `Crc.ByteStepInjective` | src/juno_arc.c:32-34 | a byte step loses nothing of the register |
| `Crc.RegisterAppend` | src/juno_zip.c:31-33 | the register after a concatenation is the register continued |
| `Crc.RegisterLinear` | src/juno_arc.c:32-34 | the register is linear in seed and message together |
| `Crc.WindowAsWord` | src/juno_zip.c:31-33 | feeding up to a register's width of bytes equals XORing them in as one word and clocking |
| `CrcMessages.ChunkingAgrees` | include/juno/crc/crc.h:28-49 | streaming a message in two non-empty chunks, undoing the final XOR between them, equals one call |
| `CrcMessages.EmptyFirstChunkAgreesIff` | include/juno/crc/crc.h:28-36 | with an empty first chunk streaming agrees iff the seed is the value the empty call resets to |
| `CrcMessages.EmptyFirstChunkFromInit` | include/juno/crc/crc.h:98-156 | from the INIT seeds it agrees for ARC, BinHex, Kermit and ZIP and fails for both CCITT variants |
| `CrcMessages.BurstIsDetected` | src/juno_arc.c:32-34 | messages that differ only within 2 bytes (16-bit) or 4 bytes (32-bit) never share a CRC |
| `CrcBits.RegisterIsBitwise` | src/juno_arc.c:32-34 | the byte-wise register is the register clocked once per message bit, low bit first for the reflected variants and high bit first for the others |
| `CrcBits.FirstBitsAt` | src/juno_arc.c:33 | the k-th bit of a byte to reach the register is the one of weight 2^k, or 2^(7-k) for the MSB-first variants |
| `CrcBits.BitBurstIsDetected` | src/juno_zip.c:31-33 | messages whose bit streams differ only inside a stretch of at most 16 (32) bits never share a CRC, at whatever bit the stretch starts |
| `CrcMessages.OwnCrcGivesResidue` | src/juno_zip.c:31-35 | appending a message's own CRC gives 0, or 0x2144DF1C for ZIP, from any seed |
| `CrcChecks.ArcCheck` | src/juno_arc.c:22-37 | from seed 0 the digits "123456789" give 0xBB3D |
| `CrcChecks.KermitCheck` | src/juno_kermit.c:22-37 | from seed 0 they give 0x2189 |
| `CrcChecks.ZipCheck` | src/juno_zip.c:21-36 | from seed 0xFFFFFFFF they give 0xCBF43926 |
| `CrcChecks.BinhexCheck` | src/juno_binhex.c:22-37 | from seed 0 they give 0x31C3 |
| `CrcChecks.CcittCheck` | src/juno_ccitt.c:22-37 | from seed 0xFFFF they give 0x29B1 |
| `CrcChecks.Ccitt32Check` | src/juno_ccitt32.c:21-36 | from seed 0xFFFFFFFF they give 0x0376E6E7 |
| `Time.OrderIsByInstant` | include/juno/time/time_api.h:216-232 | the three comparisons are the order of instants, except that they separate the two denotations of a whole second |
| `Time.Cell.AddTime` | src/juno_time.c:27-47 | adds instants exactly up to one wrap of the seconds, both fields given in numbers; canonical iff an operand is |
| `Time.SumIsExact` | src/juno_time.c:30-45 | exactly when the seconds counter wraps, for canonical and non-canonical operands alike |
| `Time.SumExactIff` | src/juno_time.c:27-47 | for canonical operands the sum is exact iff it is below 2^32 seconds |
| `Time.Cell.SubtractTime` | src/juno_time.c:50-76 | succeeds iff the order allows, is then exact and keeps canonical form, else saturates to zero |
| `Time.SubtractSucceedsIff` | src/juno_time.c:54-61 | success iff the difference of instants is not negative, but for one pair of denotations of the same instant |
| `Time.SubtractRefusesEqualInstant` | src/juno_time.c:54-61 | that exception is real |
| `Time.SubtractUndoesAdd` | src/juno_time.c:27-76 | for canonical operands subtracting what was added gives the timestamp back iff the true sum fits |
| `Time.ToUnitsNeverOverflows` | src/juno_time.c:79-182 | no 64-bit intermediate overflows and neither guard fires, for nanos, micros and millis |
| `Time.ToUnitsIsNearest` | src/juno_time.c:79-182 | the result is the integer nearest to the instant, with no ties |
| `Time.ToUnitsIsMonotone` | src/juno_time.c:79-182 | conversions respect the order of instants |
| `Time.ToUnitsOfSum` | src/juno_time.c:79-182 | converting a sum is within one unit of summing the conversions |
| `Time.ToUnitsInNumbers` | src/juno_time.c:79-182 | the three conversions with every constant written out, for all 32-bit seconds and subseconds |
| `Time.FromUnitsInNumbers` | src/juno_time.c:185-236 | the three conversions back with every constant written out, for all 64-bit values |
| `Time.FromUnitsIsClose` | src/juno_time.c:185-236 | the timestamp is canonical and within half a unit of the value, up to the seconds wrap |
| `Time.UnitsRoundTrip` | src/juno_time.c:185-236 | units to timestamp and back is the value modulo 2^32 seconds, so the identity iff the whole seconds fit |
| `Time.TimestampRoundTrip` | src/juno_time.c:79-236 | timestamp to units and back moves the instant by at most 2, 2147 or 2147484 ticks, modulo the wrap at 2^32 seconds |
| `Time.DriftIsTight` | src/juno_time.c:79-236 | the three bounds are attained |
| `HashMap.HashMap.GetWithKey` | src/juno_map.c:48-107 | the probing loop stops where the recursive search does |
| `HashMap.HashMap.Get` | src/juno_map.c:110-133 | Get on the backing array is Get on the value model |
| `HashMap.HashMap.Set` | src/juno_map.c:136-154 | likewise for Set, whole new table included |
| `HashMap.HashMap.Remove` | src/juno_map.c:157-212 | likewise for Remove |
| `MapModel.Table.Find` | src/juno_map.c:60-103 | the search stops at the first probe that is empty or holds the key, and not before |
| `MapModel.GetRefines` | src/juno_map.c:110-133 | Get answers as the abstract map; for absent keys DNE or TABLE_FULL by occupancy of the probe sequence alone |
| `MapModel.SetRefines` | src/juno_map.c:136-154 | Set updates the abstract map and keeps the invariant, and fails, unchanged, only for a new key with no empty slot on its probe sequence |
| `MapModel.RemoveRefinesIff` | src/juno_map.c:157-212 | after removing a stored key the table answers like the map with the key deleted iff no other item is found by way of the cleared slot |
| `MapModel.RemoveOfAbsentKey` | src/juno_map.c:194-208 | removing an absent key changes nothing |
| `MapModel.UnsafeRemoveDuplicates` | src/juno_map.c:202-207 | after an unsafe removal a stored key is reported missing and the next Set stores it twice |
| `MapModel.RemoveCanLoseAKey` | src/juno_map.c:202-207 | two colliding keys suffice |
| `MapModel.ProbeCases` | src/juno_map.c:67-69 | which slot the i-th probe for a key looks at, before and after hash + i wraps size_t |
| `MapModel.VisitsAllOnceIff` | src/juno_map.c:67-69 | the probe sequence visits every slot exactly once iff it does not wrap size_t or the capacity divides 2^w |
| `MapModel.RoomIffNotFull` | src/juno_map.c:67-103 | where it does, an empty slot anywhere is one on every such key's probe sequence; FullWithRoomIff gives the converse |
| `MapModel.FullWithRoomIff` | src/juno_map.c:67-103 | for every hash value, capacity and size_t width: a table filled by Sets alone can report TABLE_FULL with a slot empty iff the probes wrap size_t and the capacity does not divide 2^w |
| `MapModel.BuiltTablesAreValid` | src/juno_map.c:136-154 | such tables satisfy the invariant and do not hold the key searched for |
| `MapModel.FullReportedWithRoom` | src/juno_map.c:67-103 | two Sets on three slots with a 64-bit size_t after which the third is refused with slot 2 empty |
| `MapRuns.RunRefinesMap` | src/juno_map.c:48-212 | every run of Set, Get and Remove matches the abstract map reply for reply until a removal is unsafe |
| `MapRuns.RunsFromEmpty` | src/juno_map.c:48-212 | in particular every run on a table whose slots are all empty, against the empty map |
| `Queue.Queue.constructor` | src/juno_buff_queue.c:107-117 | an initialised queue is empty |
| `Queue.Queue.Push` | src/juno_buff_queue.c:25-47 | appends at the back, or OOB_ERROR unchanged when full |
| `Queue.Queue.Pop` | src/juno_buff_queue.c:51-75 | takes the front, or OOB_ERROR when empty |
| `Queue.Queue.Peek` | src/juno_buff_queue.c:79-93 | reads the front |
| `Broker.Broker.RegisterSubscriber` | src/juno_broker.c:76-95 | appends the pipe, registered already or not, or ERR unchanged when the registry is full |
| `Broker.Broker.Publish` | src/juno_broker.c:51-73 | the in-place loop offers the message to the registry entries in order up to the first failure |
| `BrokerModel.FanOutDelivers` | src/juno_broker.c:57-71 | a publication fails iff some matching entry finds its pipe full, and has then delivered one copy per matching entry before the first such and nothing else |
| `BrokerModel.PipesAreFifo` | src/juno_broker.c:51-95 | in every run, repeated registrations included, each pipe holds what it first held and the messages accepted for its MID since, in publish order, minus those taken |
| `BrokerModel.PublishKeepsFifo` | src/juno_broker.c:57-71 | a publication, complete or cut short, keeps that |
| `Pipeline.ThreadObject.constructor` | examples/udp-threads/src/monitor_app.cpp:46-64 | OnStart leaves one subscribed pipe of capacity 8 and a thread with nothing counted, queued, printed or sent |
| `Pipeline.ThreadObject.SenderOnProcess` | examples/udp-threads/src/sender_app.cpp:61-89 | the 32-bit counter steps and wraps at 2^32, then publish, then send: each failure returns with exactly the earlier effects |
| `Pipeline.ThreadObject.BridgeOnProcess` | examples/udp-threads/src/udp_bridge_app.cpp:79-106 | timeout is success, other errors pass through, a datagram is published |
| `Pipeline.ThreadObject.DrainOnProcess` | examples/udp-threads/src/monitor_app.cpp:67-97 | everything queued is output in order and the queue is left empty |
| `Pipeline.ThreadObject.Execute` | examples/udp-threads/src/main.cpp:62-79 | the nested scheduler loops run the table in order up to the first failure, for any table and frame shape and independent network outcomes per entry |
| `PipelineModel.PassAppend` | examples/udp-threads/src/main.cpp:62-79 | a pass over two tables in turn is the second from where the first leaves the thread, or ends where the first fails |
| `PipelineModel.AbsentEntriesAreSkipped` | examples/udp-threads/src/main.cpp:71-75 | a pass is the pass over the table without its absent entries |
| `PipelineModel.Pass1` | examples/udp-threads/src/main.cpp:62-79 | one pass of thread 1 in full, for every state and Send outcome |
| `PipelineModel.Pass2` | examples/udp-threads/src/main.cpp:62-79 | one pass of thread 2 from an empty queue in full, for every Receive outcome |
| `PipelineModel.NothingLostBeforeWrap` | examples/udp-threads/src/sender_app.cpp:61-89 | in plain numbers, before the 32-bit counter wraps: output and queue together are 1, 2, ..., k and fewer than eight are queued |
| `PipelineModel.NothingLostWhileAlive` | examples/udp-threads/src/main.cpp:127-145 | until eight sends in a row fail, monitored output then queue is exactly 1, 2, ..., k (modulo 2^32) and the queue length is the number of trailing failures |
| `PipelineModel.EightFailuresStopTheThread` | examples/udp-threads/src/main.cpp:62-79 | after the first eight failures in a row nothing more is ever sent or monitored and every pass fails in Publish |
| `PipelineModel.StopsIffEightFailures` | examples/udp-threads/src/main.cpp:62-79 | the queue fills iff some eight sends in a row fail |
| `PipelineModel.OnlySentIsProcessed` | examples/udp-threads/src/processor_app.cpp:67-97 | under every interleaving and any lossy, repeating, reordering network thread 2 processes only numbers that were sent, all of which thread 1 has monitored, its queue is empty between passes and its Publish never fails |
| `PipelineModel.ThreadsAreIndependent` | examples/udp-threads/src/main.cpp:127-165 | in every interleaving thread 1 is where its own passes alone would take it |
| `PipelineModel.NothingProcessedAfterStop` | examples/udp-threads/src/main.cpp:62-79 | once eight sends in a row have failed thread 2 processes only numbers sent before them, under every interleaving |

## Left out

- Null-pointer and vtable checks of the Verify helpers, and failure-handler callbacks: apart from the
  allocator's configuration check they guard against unwired modules only.
- Failing Compare, Swap, Copy, SetAt, GetAt and RemoveAt callbacks; Reset may fail only in the
  allocator.
- `size_t` wrap-around in the heap's child indices: exact for capacities up to (SIZE_MAX - 2) / 2,
  which every array of addressable elements has. The queue's index sum is likewise exact.
- Items compared by `Equals` are modelled by equality of a key, so equal items hash alike; stored
  items are never null.
- HeapModel.SiftDownOrders: the heap's Swap callback exchanges values, so elements with identity of
  their own (aliasing inside an element) are not distinguished.
- The allocator's Put of addresses inside a block, or of descriptors made up by the caller, other than
  whole-block addresses nobody holds.
- Broker.Broker.RegisterSubscriber: two different pipes over one queue object or one backing array,
  which would overwrite each other's messages.
- The `double` conversions of the time module, and `include/juno/math`: floating point or
  componentwise arithmetic.
- Stack, hash function, state-machine header, C++ templates, application templates: simpler relatives
  of what is modelled.
- Sockets, POSIX threads, sleeping, printing, and the start-up and shutdown sequence of the example.
- The VS Code extension and the Python scripts.
