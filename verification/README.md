# Contiki-NG core, modelled and proved in Dafny

This project models seven components of Contiki-NG whose correctness is hard to see from
their code, and proves what they are for:

* **Heap allocator** (`HeapShape.dfy`, `HeapRuns.dfy`, `HeapMem.dfy`). The arena is an array of cells, and chunk
  headers exist only in it: they are loaded from it and stored over it. Chunks tile the
  used part, a doubly linked free list is threaded through the free ones, and the client's view is
  a map from live chunk to its bytes. Every operation is proved against that view, allocation is
  proved complete and best-fit in terms of the runs of adjacent free chunks, and a run from
  initialisation is proved to be a run of the client view.
* **SLIP** (`SlipCode`, `SlipRead`, `SlipRing`, `SlipOverrun`, `SlipSession`, `SlipHost`). Byte
  stuffing, the cyclic receive buffer with several complete frames and a partial one, and the host
  side. Host to node, exactly the packets sent are delivered, in order, as long as no byte finds the
  ring full; what the polls return after the first one that does is proved too. Node to host, always.
* **Ring buffer and serial line** (`RingBuf.dfy`, `SerialLine.dfy`, `SerialRing.dfy`). One producer
  and one consumer interleaved at every load and store; the line assembler with its overflow mode;
  and every interleaving of the two as a schedule of the assembler.
* **Neighbor tables** (`KeyList.dfy`, `NbrBits.dfy`, `NbrView.dfy`, `NbrTable.dfy`). Up to eight
  tables over one key pool, each refining a map from address to slot, with the eviction policy.
* **CCM\*** (`CcmStar.dfy`) against sections 2.2, 2.3 and 2.5 of RFC 3610, for any block function.
* **Trickle** (`TrickleConfig.dfy`, `TrickleTimer.dfy`) against sections 4.1 and 4.2 of RFC 6206.
* **Event timers over the kernel queue** (`EventQueue.dfy`, `EventTimer.dfy`) and **CRC-16**
  (`Crc16.dfy`) against bit-serial division.

`Arithmetic.dfy`, `Sequences.dfy` and `Octets.dfy` hold shared facts. Code that updates state is a class or a
method on arrays, with its contract in terms of a specification function or an abstract value; the
lemmas are about those. The ring buffer is the exception: its two threads are a state machine whose
steps are the single loads and stores.

Conventions: offsets and indices stand for pointers and `NULL` is -1; integers are unbounded, and
where a width matters (8-bit positions and counters, the W-bit clock, bit maps, the CRC) it is
written out. Random numbers, clock readings and timer expiry are parameters.

## Model

| member | source | states |
|---|---|---|
| `HeapMem.Align` | os/lib/heapmem.c:104-105 | the least multiple of the alignment that is not below the size |
| `HeapMem.MultipleMod` | os/lib/heapmem.c:104-105 | the multiples that alignment speaks of are those of divisibility |
| `HeapMem.Heap.constructor` | os/lib/heapmem.c:144-150 | an empty arena is a sound heap with no live block |
| `HeapMem.Heap.StoreHeader` | os/lib/heapmem.c:131-150 | storing a header overwrites its bytes of the arena and leaves the other headers whole |
| `HeapMem.Heap.Load` | os/lib/heapmem.c:131-150 | a header is what its bytes in the arena hold, and that is what was stored there |
| `HeapMem.Heap.HeaderWhole` | os/lib/heapmem.c:131-150 | in a sound heap every byte of every header in the arena is intact |
| `HeapMem.Heap.ExtendSpace` | os/lib/heapmem.c:154-167 | grows the used part, or fails and changes nothing, exactly when it does not fit |
| `HeapMem.Heap.FreeChunk` | os/lib/heapmem.c:170-187 | the last chunk goes back to the wilderness, any other to the front of the free list; the heap is sound again and only headers are written |
| `HeapMem.Heap.AllocateChunk` | os/lib/heapmem.c:191-208 | from any position the chunk leaves the doubly linked free list, which stays one with the others in order |
| `HeapMem.Heap.SplitChunk` | os/lib/heapmem.c:215-231 | the block keeps a prefix of the rounded length if the rest can hold a header and more, else all of it; the rest joins the wilderness or heads the free list; no other block changes |
| `HeapMem.Heap.Absorb` | os/lib/heapmem.c:239-245 | one round of coalescing keeps the heap sound and merges exactly the free successor |
| `HeapMem.Heap.CoalesceChunks` | os/lib/heapmem.c:235-246 | absorbs free chunks until the next one is live or the end; everything absorbed was free and leaves the free list |
| `HeapMem.Heap.DefragChunks` | os/lib/heapmem.c:250-264 | keeps all live blocks and the list order; the entries passed are capped and the others as they were; a pass over the whole list leaves no free chunk before another free one |
| `HeapShape.PassStep` | os/lib/heapmem.c:254-263 | the step of that argument: coalescing at one list entry keeps every entry already passed capped, even as entries vanish from the list |
| `HeapMem.Heap.FindBest` | os/lib/heapmem.c:277-298 | the first of the smallest sufficient chunks among the entries searched, NULL exactly when there is none |
| `HeapMem.Heap.GetFreeChunk` | os/lib/heapmem.c:268-307 | yields a fresh block over the best fit that the bounded pass and search come upon, cut down if the rest can be a chunk, and keeps all others; with a short list it fails exactly when no run of adjacent free chunks is large enough |
| `HeapShape.SearchComplete` | os/lib/heapmem.c:250-307 | after a full pass, best fit finds nothing exactly when the original tiling had no run of free chunks of that span |
| `HeapRuns.ChunkWasMaxRun` | os/lib/heapmem.c:235-264 | after a full pass every free chunk was a maximal run of adjacent free chunks before it |
| `HeapRuns.MaxRunIsChunk` | os/lib/heapmem.c:235-264 | and every such run has become one free chunk |
| `HeapRuns.SearchedWhole` | os/lib/heapmem.c:268-307 | searching a list to its end finds the shortest run that is large enough, of several the first in the list, and nothing only when no run is |
| `HeapMem.Heap.Alloc` | os/lib/heapmem.c:327-353 | a fresh block of at least the aligned size, all others untouched; NULL only when the wilderness has no room, and with at most CHUNK_SEARCH_MAX free entries exactly when no free run fits either; then it lies over the shortest maximal run of adjacent free chunks that is large enough, or else at the end of the used part, and its length is exact; for longer lists over the best fit among the entries searched |
| `HeapMem.Heap.Free` | os/lib/heapmem.c:371-384 | exactly that block leaves the live blocks; its chunk joins the wilderness if it is the last and else heads the free list, unmerged |
| `HeapMem.Heap.GrowInPlace` | os/lib/heapmem.c:443-466 | succeeds exactly when the wilderness or the free chunks behind give room; contents stay a prefix; how long the block is then, exactly: what is left over is given back if it can be a chunk, and a failure has taken all there is |
| `HeapMem.Heap.RoomBySpan` | os/lib/heapmem.c:443-466 | there is room in place exactly when the free chunks behind the block, or the wilderness behind the last one, reach far enough |
| `HeapShape.CoalescedReaches` | os/lib/heapmem.c:454-465 | coalescing reaches the wanted size exactly when the free chunks directly behind do |
| `HeapShape.RoomAfterCoalescing` | os/lib/heapmem.c:454-475 | coalescing at a live block takes exactly the run behind it out of reach of the search |
| `HeapRuns.CoalescedEnd` | os/lib/heapmem.c:235-246 | coalescing makes a chunk reach just to the end of the free chunks behind it |
| `HeapRuns.PlacedAfterCoalescing` | os/lib/heapmem.c:454-475 | a block placed after coalescing at a live chunk lies over the best of the runs that are not right behind that chunk |
| `HeapMem.Heap.Copy` | os/lib/heapmem.c:479 | copies a block's bytes into another and changes no other block |
| `HeapMem.Heap.StoreByte` | os/lib/heapmem.c:327-353 | a client store into its block changes that byte of it and no header |
| `HeapMem.Heap.Realloc` | os/lib/heapmem.c:408-483 | on every path the common prefix survives and no other block changes; a failure keeps the block's bytes; when exactly the block stays in place, and how long it is then, exactly; a block that moves is placed as a new one would be, but not over the run behind it; no block returned is longer than what was asked for by more than a header; with at most CHUNK_SEARCH_MAX free entries, exactly when it fails: no room in place, in a free run elsewhere, or in the wilderness |
| `HeapMem.Heap.Stats` | os/lib/heapmem.c:487-508 | the numbers account for the whole arena, live blocks stay, and afterwards no two free chunks are adjacent |
| `HeapMem.Heap.BlockPlaced` | os/lib/heapmem.c:104-126 | a live block is aligned, inside the used part and clear of all headers |
| `HeapMem.Heap.BlocksApart` | os/lib/heapmem.c:107-111 | live blocks do not overlap |
| `HeapShape.ChunkAt` | os/lib/heapmem.c:107-111 | every used offset lies in a chunk of the tiling |
| `HeapShape.LinkedUnlink` | os/lib/heapmem.c:194-207 | the stores of allocate_chunk cut one entry out of the doubly linked list |
| `HeapShape.MergedKeepsBlocks` | os/lib/heapmem.c:235-246 | merging free chunks changes no live block, except that the one coalesced at may grow |
| `HeapMem.UntouchedSurvives` | os/lib/heapmem.c:327-508 | over any run, a block no call names keeps its place and its bytes |
| `HeapMem.MayCallLegal` | os/lib/heapmem.c:327-483 | the calls permitted in a run are exactly those on null or a live block, and stores into the bytes asked for |
| `HeapMem.Perform` | os/lib/heapmem.c:327-508 | each call does to the live blocks what the client view says |
| `HeapMem.Run` | os/lib/heapmem.c:327-508 | every sequence of permitted calls from initialisation keeps the heap sound and is a run of the client view |
| `SlipCode.UnstuffStuff` | os/dev/slip.c:103-111 | un-stuffing inverts stuffing |
| `SlipCode.StuffUnstuff` | os/dev/slip.c:139-160 | a complete legal frame is the only encoding of its packet |
| `SlipCode.StuffLegal` | os/dev/slip.c:103-111 | a stuffed packet has no END and only proper escape pairs |
| `SlipCode.SentOctets` | os/dev/slip.c:100-111 | byte i of a packet is sent as 0xDB 0xDC for 0xC0, 0xDB 0xDD for 0xDB and itself otherwise, right behind the bytes before it |
| `SlipCode.FirstEnd` | os/dev/slip.c:208-236 | among whole frames and a partial one, the first END ends the first frame |
| `SlipRing.Receiver.constructor` | os/dev/slip.c:118-122 | an empty clean ring |
| `SlipRing.Receiver.AddChar` | os/dev/slip.c:295-330 | stores the byte and moves pkt_end on an END, or resets next_free on a full ring; what that means for the packets, also across the wrap |
| `SlipRing.Receiver.InputByte` | os/dev/slip.c:270-331 | what every branch does to buffer, indices and state, from any state; as long as nothing is discarded and no empty packet is stored, what that means for the packets buffered |
| `SlipRing.Receiver.CopyOut` | os/dev/slip.c:139-160 | one copying loop reads the end of any frame behind what came out before, and gives up exactly when more than blen bytes are out before its last byte |
| `SlipRing.Receiver.CopyOne` | os/dev/slip.c:145-159 | one turn of that loop adds what the byte stands for, with the escape state carried over |
| `SlipRing.Receiver.ReadPacket` | os/dev/slip.c:131-206 | the result and the caller's buffer for any frame, read in one piece or in two, even when an escape pair straddles the wrap |
| `SlipRing.Receiver.NextPacket` | os/dev/slip.c:208-236 | the scan finds the first END behind the frame just read, whatever is there, and polls again exactly when there is one |
| `SlipRing.Receiver.PollHandler` | os/dev/slip.c:125-241 | from any state, reads the bytes up to pkt_end and moves on to the next END; as long as nothing was discarded that hands over the oldest packet, whole if it fits the caller's buffer |
| `SlipRead.DecodeLegal` | os/dev/slip.c:145-159 | the copying loop un-stuffs what a sender stuffs, with the escape state kept |
| `SlipRead.PairOut` | os/dev/slip.c:145-159 | in octets: 0xDB 0xDC gives 0xC0, 0xDB 0xDD gives 0xDB, any other pair nothing, any other byte itself |
| `SlipRead.ReadExact` | os/dev/slip.c:137-206 | when the result is the packet, when it is 0, and when the second loop alone decides it |
| `SlipRead.TailRead` | os/dev/slip.c:184-205 | the second loop alone gives the tail of the frame, or 0 if that is too long |
| `SlipRead.TailIs` | os/dev/slip.c:184-205 | that tail is the rest of the packet |
| `SlipRead.TailSplit` | os/dev/slip.c:184-205 | when the wrap cuts an escape pair in two, its second half counts as a byte of the tail |
| `SlipRead.SlackByte` | os/dev/slip.c:141-159 | the byte behind the caller's buffer is written exactly when the packet is longer than the buffer |
| `SlipOverrun.TailReached` | os/dev/slip.c:131-206 | with the ring 16 bytes larger than the caller's buffer, a short packet and a long one make a poll hand over the tail of the long one |
| `SlipRing.CutBack` | os/dev/slip.c:301-305 | the bytes from begin up to pkt_end, where an overflow puts next_free, are the first packet without its END, or none |
| `SlipRing.HoldsEnd` | os/dev/slip.c:309-328 | END turns the partial frame into the last packet, and pkt_end is set exactly when it is the only one |
| `SlipSession.HostWrite` | tools/tunslip6.c:417-479 | the host's loop writes the stuffed packet and one END |
| `SlipSession.PlaySane` | os/dev/slip.c:65-77 | on a link with room for everything nothing is lost, duplicated or reordered, for every schedule |
| `SlipSession.Delivered` | os/dev/slip.c:125-331 | with a poll after each byte, a ring with room for the longest frame is never full and everything is delivered |
| `SlipSession.Session` | os/dev/slip.c:125-331 | every interleaving of bytes and polls: exactly while no byte finds the ring full, the receiver does what the link with room for everything does, and polls return the packets sent; the state in which the first byte that finds it full leaves the ring, with an END in the unused slot once any packet was polled |
| `SlipOverrun.RoundTheRing` | os/dev/slip.c:208-236 | from behind the first packet once round a full ring lie the other packets, the cut-off one, the unused slot and the first packet again |
| `SlipOverrun.PollAfterOverrun` | os/dev/slip.c:125-241 | after an overflow, as long as no byte is stored, the polls return every packet that was waiting, in order |
| `SlipOverrun.NextAfterOverrun` | os/dev/slip.c:125-331 | then, if the unused slot holds an END, the cut-off packet is returned as if complete and the next one has the first packet in front; if not, the next one has all the junk in front; then the ring is clean |
| `SlipOverrun.FeedWaiting` | os/dev/slip.c:295-328 | a packet that arrives while others are waiting is stored behind all there is |
| `SlipOverrun.StoredBeforePoll` | os/dev/slip.c:125-331 | a packet stored before the first poll overwrites the END of the first one: the packets behind that are lost, and it comes without its first byte |
| `SlipOverrun.CleanAfterOverrun` | os/dev/slip.c:270-305 | with no packet waiting an overflow loses only the packet that was arriving |
| `SlipOverrun.JunkDropped` | os/dev/slip.c:295-305 | junk that fills the ring goes with the next byte |
| `SlipOverrun.NextBehind` | os/dev/slip.c:125-331 | a packet stored behind any bytes that no poll takes is returned as one packet with them |
| `SlipOverrun.EndGluedOn` | os/dev/slip.c:309-328 | an END right behind a buffered packet comes in front of the packet after |
| `SlipHost.NodeWrite` | os/dev/slip.c:94-115 | the node writes the stuffed packet between two octets 0xC0 |
| `SlipHost.IsSensible` | tools/tunslip6.c:154-166 | true exactly when every byte but the first is printable or white space |
| `SlipHost.ToTunOctets` | tools/tunslip6.c:207-287 | the packets meant for the interface begin with none of ! ? CR and have, behind the first byte, one that is neither printable nor NUL, tab, LF or CR |
| `SlipHost.KeptIs` | tools/tunslip6.c:188-193 | what is left of a packet is its last length % 2000 bytes |
| `SlipHost.HostRead` | tools/tunslip6.c:188-338 | the host's goto loop is the scanning function: it empties the buffer at 2000 bytes and writes out all packets but commands, debug lines and text |
| `SlipHost.ScanStuffed` | tools/tunslip6.c:188-338 | scanning a stuffed packet appends it to the buffer, less every 2000 bytes that filled it |
| `SlipHost.PairReceived` | tools/tunslip6.c:291-315 | what each escape pair adds to the buffer, in octets, XON and XOFF among them |
| `SlipHost.ScanSplit` | tools/tunslip6.c:289-294 | reading in two goes, an ESC at the end of the first put back, is reading in one |
| `SlipHost.HostReads` | tools/tunslip6.c:188-338 | any number of reads, with the static buffer and the byte put back, scan the whole stream |
| `SlipHost.NodeToHost` | tools/tunslip6.c:188-338 | scanning what the node wrote gives exactly its packets that are meant for the interface, in order, of long ones what is left after whole buffers |
| `SlipHost.Ipv6Delivered` | tools/tunslip6.c:188-338 | IPv6 packets below 2000 bytes with a byte above 0x7E behind the first all reach the interface, unchanged and in order |
| `SlipHost.TextNotDelivered` | tools/tunslip6.c:154-166 | lines of text never do |
| `SlipHost.NodeToTun` | tools/tunslip6.c:188-338 | the same from slip_write to the interface, however the wire is cut into reads; IPv6 packets arrive as they were sent |
| `RingBuf.Masked` | os/lib/ringbuf.c:44-50 | masking with size - 1, of a difference that may be negative, is reduction modulo the size |
| `Arithmetic.MaskIsModulo` | os/lib/ringbuf.c:44-50 | the same for every power of two |
| `RingBuf.PutStepInv` | os/lib/ringbuf.c:53-77 | each load or store of the producer keeps the invariant, never hits an unread slot, and refuses only when size - 1 bytes are unread |
| `RingBuf.GetStepInv` | os/lib/ringbuf.c:80-110 | each load or store of the consumer keeps it, and finds nothing only when nothing is unread |
| `RingBuf.PutCall` | os/lib/ringbuf.c:53-77 | a whole call appends the byte, or refuses it exactly when full |
| `RingBuf.GetCall` | os/lib/ringbuf.c:80-110 | a whole call returns the oldest unread byte, or nothing exactly when empty |
| `RingBuf.FifoUnderInterleaving` | os/lib/ringbuf.c:53-122 | for every interleaving the bytes returned are a prefix of those accepted, at most size - 1 behind, and the pointers tell how many |
| `SerialLine.Driver.InputByte` | os/dev/serial-line.c:65-90 | what is put, skipped and ignored, and when overflow mode begins and ends |
| `SerialLine.Driver.Consume` | os/dev/serial-line.c:102-131 | a line is delivered exactly at END: the bytes taken since the last one, the first bufsize - 1 of them if there are more |
| `SerialLine.Completed` | os/dev/serial-line.c:80-85 | the END that ends overflow mode completes a prefix of an input line, possibly with the END of a later one |
| `SerialLine.NothingDropped` | os/dev/serial-line.c:65-90 | without overflow every byte is on its way, in order |
| `SerialLine.LinesJoin` | os/dev/serial-line.c:102-131 | the lines of a byte stream, each with its END, make up the stream, and no line holds an END |
| `SerialLine.ShortLinesWhole` | os/dev/serial-line.c:102-131 | when all lines are shorter than the buffer, the lines delivered and the unfinished one are all the bytes taken |
| `SerialLine.Run` | os/dev/serial-line.c:65-131 | for every stream and schedule, the lines delivered are those of the bytes taken, whole or cut to bufsize - 1 bytes, each a prefix of an input line, with strictly increasing source lines; if every byte found room and all are taken, they are the lines of the input |
| `SerialRing.StepAgrees` | os/dev/serial-line.c:65-131 | every load or store of the ring by either thread keeps the driver in step with a schedule |
| `SerialRing.RunIsSchedule` | os/dev/serial-line.c:65-131 | every interleaving of loads and stores yields a schedule with the same input in which the process takes the same bytes |
| `SerialRing.NoneRefused` | os/dev/serial-line.c:65-90 | if the ring was never found full, every byte of the input went into it, in order |
| `SerialRing.LinesDelivered` | os/dev/serial-line.c:65-131 | under every interleaving of loads and stores the lines delivered are those of the bytes taken, bounded prefixes of input lines with strictly increasing sources, and the lines of the input themselves if the ring was never found full and has been emptied |
| `KeyList.Pool.Alloc` | os/lib/memb.c:59-76 | a block not in use, NULL exactly when all are |
| `KeyList.Pool.Free` | os/lib/memb.c:79-101 | gives back the block, -1 for a foreign one |
| `KeyList.Pool.NumFree` | os/lib/memb.c:111-123 | free and taken blocks add up |
| `KeyList.List.Remove` | os/lib/list.c:237-260 | exactly the item leaves, order kept, no cycle |
| `KeyList.List.Tail` | os/lib/list.c:117-128 | the last item, NULL for the empty list |
| `KeyList.List.Add` | os/lib/list.c:142-158 | the item is last, wherever it was before, and listed once |
| `KeyList.ChainedCut` | os/lib/list.c:245-259 | rewriting one link cuts one node out of a NULL-terminated chain |
| `NbrBits.WithBitAt` | os/net/nbr-table.c:164-179 | setting or clearing a table's bit changes that bit only |
| `NbrBits.CountUsers` | os/net/nbr-table.c:249-256 | the shifting loop counts the tables that use a neighbor |
| `NbrBits.UsersAre` | os/net/nbr-table.c:249-256 | that count is the size of the set of tables whose bit is set |
| `NbrView.ViewAt` | os/net/nbr-table.c:131-160 | the map of a table and the key list with bit maps agree in both directions |
| `NbrView.ViewWithout` | os/net/nbr-table.c:182-198 | removing a key takes its address out of every table and nothing else |
| `NbrView.VictimUnique` | os/net/nbr-table.c:236-267 | the eviction policy determines its victim |
| `NbrView.VictimByTables` | os/net/nbr-table.c:236-267 | the victim is the oldest unlocked neighbor among those in the fewest tables, told by the maps of the tables |
| `NbrTable.ItemRoundTrip` | os/net/nbr-table.c:95-113 | item and index conversions invert each other |
| `NbrTable.Tables.SlotOfItem` | os/net/nbr-table.c:95-127 | an item names the slot it was made for, and NULL none |
| `NbrTable.Tables.ItemsApart` | os/net/nbr-table.c:95-101 | the item of a slot lies inside the storage of its table, and items of different slots do not overlap |
| `NbrTable.Tables.constructor` | os/net/nbr-table.c:69-84 | no keys, and all tables empty |
| `NbrTable.Tables.Register` | os/net/nbr-table.c:284-309 | the next index while there are fewer than eight tables, a new callback for a table known already; no table changes |
| `NbrTable.Tables.IndexFromLladdr` | os/net/nbr-table.c:131-147 | the slot of the key with that address, -1 exactly when there is none |
| `NbrTable.Tables.GetFromLladdr` | os/net/nbr-table.c:397-401 | lookup agrees with the table's map |
| `NbrTable.Tables.SetUsed` | os/net/nbr-table.c:164-179 | adds to or removes from one table's map only |
| `NbrTable.Tables.SetLocked` | os/net/nbr-table.c:414-432 | changes one lock bit and no table |
| `NbrTable.Tables.Remove` | os/net/nbr-table.c:405-410 | the neighbor leaves that table only, and its lock by that table goes |
| `NbrTable.Tables.FindVictim` | os/net/nbr-table.c:242-267 | the oldest of the unlocked neighbors used by the fewest tables, NULL exactly when all are locked |
| `NbrTable.Tables.RemoveKey` | os/net/nbr-table.c:182-198 | the key goes, its used map is cleared, and exactly the tables with a callback whose map has the neighbor are called back, each once, in order |
| `NbrTable.Tables.Allocate` | os/net/nbr-table.c:201-279 | a free slot, else the policy's victim, else nothing changes |
| `NbrTable.Tables.AddLladdr` | os/net/nbr-table.c:351-393 | changes its own table's map only, except that an eviction drops one address from all tables at once and calls back exactly the tables with a callback that had it, each once, in order; no address but that of the slot given changes; locked neighbors stay; failure changes nothing |
| `NbrTable.Tables.Head` | os/net/nbr-table.c:324-334 | the oldest neighbor of the table |
| `NbrTable.Tables.Next` | os/net/nbr-table.c:338-347 | the next newer neighbor of the table |
| `NbrTable.Tables.Members` | os/net/nbr-table.c:324-347 | head and next visit each neighbor of a table once, in the order of the keys, oldest first |
| `NbrTable.Tables.GetItem` | os/net/nbr-table.c:397-401 | the item of the slot the table's map gives for the address |
| `NbrTable.Tables.RemoveItem` | os/net/nbr-table.c:405-410 | the neighbor the item stands for leaves that table only |
| `NbrTable.Tables.LockItem` | os/net/nbr-table.c:414-432 | the lock of the neighbor the item stands for changes, and nothing else |
| `NbrTable.Perform` | os/net/nbr-table.c:284-432 | each call does to keys, addresses, table maps, locks and callbacks what the abstract operation says |
| `NbrTable.Run` | os/net/nbr-table.c:284-432 | every sequence of calls from initialisation is a run of the abstract operations |
| `NbrTable.RunLocked` | os/net/nbr-table.c:201-432 | over any such run a locked neighbor keeps slot and address until unlocked or removed |
| `CcmStar.BlocksPad` | os/lib/ccm-star.c:94-122 | the blocks are the string followed by the fewest zeros that fill the last one |
| `CcmStar.FirstBlockOctets` | os/lib/ccm-star.c:46-60 | B_0 in octets: Adata in bit 6, (M - 2) / 2 in bits 3 to 5, L - 1 in bits 0 to 2, the nonce, the big-endian length |
| `CcmStar.FirstBlockApart` | os/lib/ccm-star.c:46-60 | no B_0 is a counter block A_i |
| `CcmStar.EncodedOctets` | os/lib/ccm-star.c:94-102 | authenticated data has its big-endian two-octet length in front |
| `CcmStar.AuthBlocksInjective` | os/lib/ccm-star.c:82-122 | the blocks under the MAC determine nonce, message and authenticated data, and M up to its lowest bit |
| `CcmStar.MicIsChain` | os/lib/ccm-star.c:82-127 | with X_1 = E(B_0) and X_(i + 1) = E(X_i XOR B_i), the MIC is the last X XOR E(A_0), cut to M bytes |
| `CcmStar.OneBlockChanged` | os/lib/ccm-star.c:82-122 | for an injective E, a change within one block changes the CBC-MAC |
| `CcmStar.SetIv` | os/lib/ccm-star.c:51-60 | flags, nonce, and the value in two bytes |
| `CcmStar.CtrStep` | os/lib/ccm-star.c:64-79 | masks exactly the block at the position |
| `CcmStar.LoopsStop` | os/lib/ccm-star.c:104-140 | the loops with 8-bit positions stop exactly for lengths up to 240 and 254 |
| `CcmStar.CtrCrypt` | os/lib/ccm-star.c:130-141 | byte i is masked with byte i % 16 of key stream block 1 + i / 16 |
| `CcmStar.CtrOctet` | os/lib/ccm-star.c:64-79 | the key stream blocks are E of the A_i in octets: 1, the nonce, the big-endian i |
| `CcmStar.CtrInvolution` | os/lib/ccm-star.c:130-141 | encrypting twice is the identity |
| `CcmStar.Absorb` | os/lib/ccm-star.c:113-122 | a block loop is CBC-MAC over the zero-padded blocks of the rest |
| `CcmStar.AbsorbA` | os/lib/ccm-star.c:95-111 | CBC-MAC over the blocks of the authenticated data with its length in front |
| `CcmStar.ComputeMic` | os/lib/ccm-star.c:82-127 | the CBC-MAC of B_0, encoded a and m, masked with S_0 and truncated |
| `CcmStar.Aead` | os/lib/ccm-star.c:150-171 | the MIC is that of the plain message in both directions |
| `CcmStar.RoundTrip` | os/lib/ccm-star.c:150-171 | forward then backward restores the message and gives the same MIC |
| `TrickleConfig.IpairExact` | os/lib/trickle-timer.h:321-322 | a pair is bad exactly when Imin << Imax exceeds 2^(W-1) |
| `TrickleConfig.MaxImax` | os/lib/trickle-timer.c:98-113 | the binary search yields the largest number of doublings that fits |
| `Arithmetic.LeadingOnes` | os/lib/trickle-timer.c:106-112 | a mask of leading ones meets a number exactly when it is at least the power of two below them |
| `TrickleTimer.GetT` | os/lib/trickle-timer.c:158-166 | t lies in the second half of the interval |
| `TrickleTimer.UntilTrue` | os/lib/trickle-timer.c:169-187 | for times within half a round of the clock, the delay is the number of ticks left, and 0 when the target has passed |
| `TrickleTimer.DoublingClosed` | os/lib/trickle-timer.c:206-213 | the n-th interval after a reset is min(I * 2^n, Imax) |
| `TrickleTimer.Timer.Config` | os/lib/trickle-timer.c:330-374 | what is rejected, and that an Imax too large is replaced by one that fits, so Imin << Imax never exceeds 2^(W-1) |
| `TrickleTimer.Timer.NewInterval` | os/lib/trickle-timer.c:288-303 | a fresh interval with counter zero and t = I/2 + random % (I/2) |
| `TrickleTimer.Timer.Set` | os/lib/trickle-timer.c:377-408 | a first interval in [Imin, Imax] |
| `TrickleTimer.Timer.Consistency` | os/lib/trickle-timer.c:308-314 | the counter is the number heard, saturated |
| `TrickleTimer.Timer.Inconsistency` | os/lib/trickle-timer.c:317-327 | back to Imin, or nothing when there already; a stopped timer starts |
| `TrickleTimer.Timer.Stop` | os/lib/trickle-timer.h:450-453 | nothing is pending |
| `TrickleTimer.Timer.CallBack` | os/lib/trickle-timer.c:270-279 | what a callback that stops, resets or restarts the timer does to it |
| `TrickleTimer.Timer.Fire` | os/lib/trickle-timer.c:260-283 | transmit exactly when fewer than k messages were heard, for any number heard; whatever the callback does, a running timer then waits for the end of its interval |
| `TrickleTimer.Timer.DoubleInterval` | os/lib/trickle-timer.c:192-255 | I becomes min(2I, Imax), and starts telescope to the exact sum of the lengths however late the callback runs |
| `TrickleTimer.React` | os/lib/trickle-timer.c:192-408 | each input takes the step of the algorithm with an unlimited counter |
| `TrickleTimer.Run` | os/lib/trickle-timer.c:192-408 | over every run state and decisions are those of that algorithm, and the invariant holds |
| `EventQueue.Queue.Post` | os/sys/process.c:322-359 | appends, or fails exactly when the queue is full |
| `EventQueue.Queue.Take` | os/sys/process.c:245-272 | takes the oldest event |
| `EventQueue.CastExact` | os/sys/process.c:346 | the cast to 8 bits is harmless exactly for at most 128 slots |
| `EventTimer.Timers.UpdateTime` | os/sys/etimer.c:58-78 | the clock reading at which some listed timer is due, and no listed timer is due sooner from now on the wrapping clock; 0 if none is listed |
| `EventTimer.OneExpiration` | os/sys/etimer.c:58-78 | that expiration is determined by list, due times and clock |
| `EventTimer.Timers.Serve` | os/sys/etimer.c:117-134 | an expired timer is posted and taken off the list, or a re-poll is requested |
| `EventTimer.Timers.Walk` | os/sys/etimer.c:112-137 | one walk serves the first expired timer, or finds none or a full queue |
| `EventTimer.Timers.Poll` | os/sys/etimer.c:112-137 | serves the expired timers in list order, one event each to its owner, as many as fit; one stays listed only with a full queue and a re-poll pending |
| `EventTimer.FirstExpired` | os/sys/etimer.c:116-131 | taking off the first expired timer leaves the others expired, in order |
| `EventTimer.Timers.LinkTimer` | os/sys/etimer.c:151-171 | the list stays well formed exactly when the timer is marked as owned or is not listed; otherwise it becomes a cycle |
| `EventTimer.Timers.AddTimer` | os/sys/etimer.c:151-174 | the timer is listed once with its new owner, and the next expiration is right |
| `EventTimer.Timers.SetTimer` | os/sys/etimer.c:177-181 | the same with a new due time |
| `EventTimer.Timers.SetTwiceOutside` | os/sys/etimer.c:151-171 | a timer set twice outside any process ends in the cycle |
| `EventTimer.Timers.OwnedMayAdd` | os/sys/etimer.c:151-174 | while listed timers are owned, that condition holds for every timer |
| `EventTimer.LinkedTwice` | os/sys/etimer.c:167-171 | a listed timer linked once more closes a cycle without end |
| `EventTimer.Timers.Stop` | os/sys/etimer.c:243-270 | the timer is off the list and counts as expired; the next expiration is recomputed if it was listed |
| `EventTimer.Timers.ProcessExited` | os/sys/etimer.c:91-107 | exactly the timers of the process leave the list |
| `EventTimer.Perform` | os/sys/etimer.c:91-270 | each call does to list, owners, due times, queue, poll flag and next expiration what the abstract step says |
| `EventTimer.Run` | os/sys/etimer.c:80-270 | over every run in which processes set timers the list stays acyclic and duplicate-free with owned timers, and the states are those of the abstract steps, the next expiration included |
| `Crc16.ByteIsEightBits` | os/lib/crc16.c:47-63 | crc16_add is eight steps of bit-serial division |
| `Crc16.Crc16Data` | os/lib/crc16.c:66-75 | the loop gives the bit-by-bit remainder of the message |
| `Crc16.CheckValue` | os/lib/crc16.c:47-75 | the CRC of the ASCII digits 1 to 9 is 0x2189 |
| `Crc16.ResidueZero` | os/lib/crc16.c:47-75 | a message followed by its CRC, low byte first, has remainder zero |
| `Crc16.RemainderInjective` | os/lib/crc16.c:47-75 | the same message keeps different accumulators apart |
| `Crc16.AdjacentChangeDetected` | os/lib/crc16.c:47-75 | any change within two adjacent bytes changes the CRC |

## Where code and documentation differ

* `trickle_timer_config` rejects k = 0 (os/lib/trickle-timer.c:344), although the header offers k = 0
  as a way to disable suppression. The model follows the code.
* `add_timer` returns only if the timer is marked as owned or is not on the list. A timer set while
  no process runs is listed with owner PROCESS_NONE, and setting it again closes a cycle. The model
  proves the exact condition (`LinkTimer`, `LinkedTwice`) and that it always holds when timers are
  set from within processes (`OwnedMayAdd`, `Run`).
* A Trickle timer that its callback resets does not fire in the interval it is reset to:
  `fire` schedules the end of the interval over the time that `new_interval` has drawn
  (os/lib/trickle-timer.c:270-282). Section 4.2 of RFC 6206 would have it fire. The model follows the
  code (`Fire`, `Run`).
* A polled SLIP packet may be one byte longer than the buffer the caller offers, since the length is
  looked at before the byte is written (os/dev/slip.c:141); a longer one is dropped, or its tail is
  taken for a packet when the ring wraps inside it (`ReadExact`, `SlackByte`).
* When a byte finds the SLIP ring full with packets waiting, next_free is set back to pkt_end to
  drop what was arriving (os/dev/slip.c:304), but the next poll scans past it, round the whole ring. So the packets
  waiting still come out, and after them, once any packet has been polled before, the cut-off one as if
  it were complete (`NextAfterOverrun`).
* The loops of CCM\* with an 8-bit position do not stop for every 8-bit length; `LoopsStop` gives the
  exact bounds.

## Left out

- Heap: wrap-around of `size_t` in ALIGN, in `heap_usage + size` and in the signed size difference; sizes are unbounded. The alignment is any positive number, of which the mask form is the power-of-two case.
- Heap: the debug fields, and which byte of a header holds what; a header byte is the number of the byte and the record it belongs to.
- HeapMem.Heap.SplitChunk: stores the new header before the shortened one; the two stores commute.
- HeapMem.Heap.Alloc: completeness and the best run are stated for free lists of at most CHUNK_SEARCH_MAX entries, because a longer list is not searched to its end; for those, the best fit among the entries searched.
- HeapMem.Heap.Realloc: exact failure, and where a block moves to, are stated for such lists, for the same reason.
- SlipRing.Receiver.InputByte: what the polls return after a bad escape, which no stuffed packet contains, is not pursued beyond the state it leads to.
- SlipSession.Session: stops at the first byte that finds the ring full; SlipOverrun.dfy goes on from there for the cases it names, not for every schedule.
- SLIP: input and poll handlers are atomic; interrupts in the middle of a handler are not modelled.
- SlipHost.HostRead: the echo at verbosity above 1, and what is done with commands, debug lines and text, which are only kept from the interface.
- SlipSession.HostWrite: XON/XOFF escapes and the 2000-byte output buffer.
- RingBuf: memory is sequentially consistent and values are updated functionally, since the steps of two threads interleave.
- SerialLine.Driver.Consume: receivers that read the line buffer later, and failing posts, are not modelled.
- NbrTable.Tables.AddLladdr: clearing of item memory is not modelled; NULL as an address stands for LINKADDR_NULL; the external NBR_TABLE_FIND_REMOVABLE policy is not modelled.
- NbrTable.Tables.RemoveKey: callbacks are recorded and do not call back into the tables.
- NbrTable.Tables.Next: this and Head name items by their slots.
- CcmStar.ComputeMic: lengths are at most 240 for m and 254 for a, beyond which the source does not stop; AES-128 is an arbitrary block function.
- TrickleConfig.MaxImax: only the generic variant; the 16-bit and 32-bit ones, and 64-bit clocks, are left out.
- TrickleTimer.Timer.Config: Imax + 1 is below the width of the clock, beyond which the source shifts by the full width or more, which C does not define.
- TrickleTimer: drift compensation is on.
- EventQueue.Queue.Post: at most 128 slots, since the source casts the index to 8 bits; `CastExact` shows that the bound is sharp.
- EventTimer.Timers.ProcessExited: next_expiration is not recomputed there by the source, and the model says just that it stays.
- EventTimer: whether a timer has expired is fixed during one handler; process dispatch, broadcast and exit are not modelled beyond the queue.
- TSCH, radio and other drivers, queuebuf, the other list modules, the network stack: not modelled.
